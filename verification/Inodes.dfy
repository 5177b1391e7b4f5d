/**
 The inode layer as code: block allocation, `inode_map`, and the loops that read, write
 and clear files, on top of the view that the block cache promises its clients.
 */
module Inodes {
  import opened Bits
  import opened Blocks
  import opened FsLayout
  import opened Files
  import opened FileClear
  import opened Journal
  import opened Volume
  import opened WriteCost

  const DEVICE: nat := 3

  datatype Outcome = Done(n: nat) | Panic | Console

  /** `(end - 1) / BLOCK_SIZE` in 64-bit arithmetic. */
  function Last(end: nat): nat
  {
    if end == 0 then (U64 - 1) / 512 else (end - 1) / 512
  }

  /** What `inode_read` makes of its count, and where it then ends, in 64-bit arithmetic. */
  function ReadCount(size: nat, offset: nat, count: nat): nat
  {
    if (count + offset) % U64 > size then (size - offset) % U64 else count
  }

  function ReadEnd(size: nat, offset: nat, count: nat): nat
  {
    (offset + ReadCount(size, offset, count)) % U64
  }

  lemma {:induction false} ReadWindow(size: nat, offset: nat, count: nat)
    requires size <= MAX_BYTES && offset < U64 && count < U64
    ensures var end := ReadEnd(size, offset, count);
            offset > size || end > size || offset > end <==> offset > size || offset + count >= U64
    ensures offset <= size && offset + count < U64 ==>
              offset + ReadCount(size, offset, count) == if size < offset + count then size else offset + count
  {
    if offset <= size {
      if offset + count < U64 {
        SmallRemainder(offset + count);
        SmallRemainder(size - offset);
        SmallRemainder(size);
      } else {
        Wrapped(offset + count);
        Wrapped(offset + ReadCount(size, offset, count));
      }
    }
  }

  lemma SmallRemainder(n: nat)
    requires n < U64
    ensures n % U64 == n
  {
  }

  lemma Wrapped(n: nat)
    requires U64 <= n < 2 * U64
    ensures n % U64 == n - U64
  {
  }

  /** How many blocks a write touches. */
  function Touched(offset: nat, count: nat): nat
  {
    var end := offset + count;
    if end == 0 || (end - 1) / 512 < offset / 512 then 0 else (end - 1) / 512 - offset / 512 + 1
  }

  /** The arguments `inode_write` does not accept: a gap, too long a file, or no byte at offset 0. */
  predicate BadWrite(size: nat, offset: nat, count: nat)
  {
    offset > size || offset + count > MAX_BYTES || offset + count == 0
  }

  /** A byte string overwritten from `at` on, growing at the end. */
  function Overwritten(c: seq<byte>, at: nat, s: seq<byte>): (r: seq<byte>)
    requires at <= |c|
    ensures |r| == Max(|c|, at + |s|)
    ensures forall p | 0 <= p < |r| :: r[p] == if at <= p < at + |s| then s[p - at] else c[p]
  {
    c[..at] + s + if at + |s| < |c| then c[at + |s|..] else []
  }

  /** Apart from the blocks written to, a write needs at most the bitmap, the address table and the inode. */
  lemma {:induction false} WriteSetSize(lay: Layout, view: Disk, e: Entry, free: set<nat>, k: nat, offset: nat,
                                        count: nat)
    requires |e.addrs| == NUM_DIRECT && e.size <= MAX_BYTES && Mapped(view, e, BlocksFor(e.size))
    requires offset <= e.size && offset + count > 0
    requires Cost(Max(BlocksFor(e.size), BlocksFor(offset + count))) <= |free| + Cost(BlocksFor(e.size))
    ensures |WriteSet(lay, view, e, free, k, offset, offset + count)| <= Touched(offset, count) + 3
    ensures count <= 1536 ==> Touched(offset, count) <= 4
  {
    hide Filled, Growth, OldBlocks;
    var n, end, first := BlocksFor(e.size), offset + count, offset / 512;
    var m := BlocksFor(end);
    assert m - first == Touched(offset, count) && first <= n;
    var o, g := OldBlocks(view, e, first, if m < n then m else n), Growth(lay, free, e.indirect, n, Max(n, m));
    var i := if end > e.size then {InodeBlock(lay, k)} else {};
    if m <= n {
      NoGrowth(lay, free, n, n, e.indirect, e.indirect);
    }
    assert |o + g + i| <= |o| + |g| + |i| by { UnionSize(o, g); UnionSize(o + g, i); }
  }

  lemma {:induction false} UnionSize(a: set<nat>, b: set<nat>)
    ensures |a + b| <= |a| + |b|
  {
    assert a + b == a + (b - a);
    Sizes(a, b - a);
    LeftOver(b, b * a);
    assert b - b * a == b - a;
  }

  /** The loop of `inode_write` is at block `i` with `done` bytes written. */
  ghost predicate Position(offset: nat, count: nat, i: nat, done: nat)
  {
    var end := offset + count;
    && offset / 512 <= i && done <= count
    && if end == 0 then i <= MAX_BLOCKS
       else i <= Max(Last(end) + 1, offset / 512) && offset + done == if i == offset / 512 then offset
           else if end < 512 * i then end else 512 * i
  }

  /** The bytes to write to block `i`. */
  function Chunk(offset: nat, count: nat, i: nat, done: nat): (m: nat)
    requires Position(offset, count, i, done) && i <= Last(offset + count)
    ensures done + m <= count && (offset + done) % 512 + m <= 512
    ensures offset + count > 0 ==> 512 * i + (offset + done) % 512 == offset + done
    ensures i < MAX_BLOCKS || offset + count > 0 ==> Position(offset, count, i + 1, done + m)
  {
    var off, end := offset + done, offset + count;
    if end - off < (i + 1) * 512 - off then end - off else (i + 1) * 512 - off
  }

  lemma {:induction false} AtStart(offset: nat, count: nat)
    requires offset + count <= MAX_BYTES
    ensures Position(offset, count, offset / 512, 0)
  {
  }

  lemma {:induction false} AtEnd(offset: nat, count: nat, i: nat, done: nat, n: nat)
    requires Position(offset, count, i, done) && i > Last(offset + count) && offset / 512 <= n
    ensures offset + count > 0 && done == count && i == BlocksFor(offset + count)
            && i - offset / 512 == Touched(offset, count)
  {
  }

  lemma {:induction false} NotYet(offset: nat, count: nat, i: nat, done: nat, n: nat)
    requires Position(offset, count, i, done) && i <= Last(offset + count) && offset + count > 0
    ensures i + 1 <= BlocksFor(offset + count) && i - offset / 512 + 1 <= Touched(offset, count)
            && (offset + count <= MAX_BYTES ==> i < MAX_BLOCKS)
  {
  }

  lemma {:induction false} BlocksBound(end: nat)
    requires end <= MAX_BYTES
    ensures BlocksFor(end) <= MAX_BLOCKS
  {
  }

  lemma {:induction false} BlocksMax(size: nat, offset: nat, end: nat)
    requires offset <= size
    ensures BlocksFor(Max(size, end)) == Max(BlocksFor(size), BlocksFor(end)) && offset / 512 <= BlocksFor(size)
    ensures end <= size ==> BlocksFor(end) <= BlocksFor(size)
  {
  }

  lemma {:induction false} AllSame(view: Disk, inodes: map<nat, Entry>)
    requires Whole(inodes)
    ensures forall j <- inodes :: SameFile(view, view, inodes[j])
  {
  }

  /** What a finished write did to the file and to all others. */
  lemma {:induction false} WroteContent(view0: Disk, inodes0: map<nat, Entry>, view1: Disk,
                                        inodes1: map<nat, Entry>,
                                        view2: Disk, inodes2: map<nat, Entry>, k: nat, at: nat, s: seq<byte>)
    requires Wrote(view0, inodes0, view1, inodes1, k, at, s) && at <= inodes0[k].size <= MAX_BYTES
             && Whole(inodes2)
    requires inodes2 == inodes1[k := inodes1[k].(size := Max(inodes0[k].size, at + |s|))]
    requires Bytes(view1, inodes2[k]) == Bytes(view1, inodes1[k])
             && forall j <- inodes2 :: SameFile(view1, view2, inodes2[j])
    ensures Content(view2, inodes2[k]) == Overwritten(Content(view0, inodes0[k]), at, s)
    ensures Others(view0, inodes0, view2, inodes2, k) && inodes2.Keys == inodes0.Keys
  {
    hide Bytes, Spliced, SameFile, Overwritten;
    SplicedPrefix(Bytes(view0, inodes0[k]), at, s, inodes0[k].size);
    SameFileBytes(view1, view2, inodes2[k]);
    forall j <- inodes0 | j != k ensures inodes2[j] == inodes0[j] && SameFile(view0, view2, inodes0[j]) {
      assert inodes2[j] == inodes1[j];
      SameFileTrans(view0, view1, view2, inodes0[j]);
    }
  }

  lemma {:induction false} SplicedPrefix(c: seq<byte>, at: nat, s: seq<byte>, size: nat)
    requires at <= size <= |c| && at + |s| <= |c|
    ensures Spliced(c, at, s)[..Max(size, at + |s|)] == Overwritten(c[..size], at, s)
  {
    var l, r := Spliced(c, at, s)[..Max(size, at + |s|)], Overwritten(c[..size], at, s);
    hide Spliced;
    assert forall i | 0 <= i < |l| :: l[i] == r[i];
  }

  /** The inodes in use below `n`, as they are stored. */
  ghost predicate Loaded(lay: Layout, view: Disk, inodes: map<nat, Entry>, n: nat)
  {
    && (forall j: nat ::
          j in inodes <==> 0 < j < n && j < lay.numInodes && Stored(lay, view, j).kind != UNUSED)
    && forall j <- inodes :: inodes[j] == Stored(lay, view, j)
  }

  lemma {:induction false} LoadedAll(lay: Layout, view: Disk, inodes: map<nat, Entry>, inodes': map<nat, Entry>,
                                     owner': map<nat, (nat, nat)>)
    requires Spelled(lay, view, inodes', owner') && Loaded(lay, view, inodes, lay.numInodes)
    ensures inodes == inodes'
  {
    hide World, Stored;
    forall j ensures (j in inodes <==> j in inodes') && (j in inodes ==> inodes[j] == inodes'[j]) {
      if j in inodes' {
        TableHas(lay, view, inodes', owner', Meta(lay), j);
      }
    }
    assert inodes.Keys == inodes'.Keys;
  }

  /** A new inode. */
  function Fresh(kind: nat): (e: Entry)
    ensures e.kind == kind && e.major == e.minor == e.links == e.size == e.indirect == 0
    ensures |e.addrs| == 12 && forall i | 0 <= i < 12 :: e.addrs[i] == 0
  {
    Entry(kind, 0, 0, 0, 0, seq(NUM_DIRECT, _ => 0), 0)
  }

  lemma {:induction false} MetaStoredBy(lay: Layout, view: Disk, view': Disk, inodes: map<nat, Entry>,
                                        owner: map<nat, (nat, nat)>, reserved: set<nat>, busy: nat, k: nat)
    requires World(lay, view', inodes, owner, reserved, busy) && SameMeta(lay, view, view')
    ensures StoredBut(lay, view, view', k)
  {
    hide SameMeta, StoredBut, Owns, Marked, NoHoles, Table;
    MetaStored(lay, view, view', k);
  }

  class Fs {
    const lay: Layout
    var view: Disk                      // the last synced content of every block
    var inodes: map<nat, Entry>         // the `entry` of every inode in use
    var logged: set<nat>                // the blocks of the log header
    var rm: nat                         // what the running operation may still add
    var puts: seq<Change>               // what it has synced so far
    ghost var start: Client             // what it started from
    ghost var owner: map<nat, (nat, nat)>
    ghost var reserved: set<nat>

    ghost predicate Sound(busy: nat)
      reads this
    {
      World(lay, view, inodes, owner, reserved, busy) && Traced()
    }

    /** The syncs on record account for every change since the operation began. */
    ghost predicate Traced()
      reads this`view, this`logged, this`rm, this`puts, this`start
    {
      Puts(lay, start, puts, Client(view, logged, rm))
    }

    /** Between operations: the disk spells out the inodes, and nothing is set aside but metadata. */
    ghost predicate Tidy()
      reads this
    {
      Sound(0) && reserved == Meta(lay) && InUse(lay, view, inodes)
    }

    ghost function Free(): set<nat>
      reads this`view
    {
      FreeBlocks(lay, view)
    }

    /** The file system of a consistent disk, with every inode in use loaded. */
    constructor (lay: Layout, view: Disk)
      requires Consistent(lay, view)
      ensures Tidy() && this.lay == lay && this.view == view
    {
      hide World, Loaded, InUse, Meta, Consistent;
      this.lay, this.view, inodes, logged, rm, puts := lay, view, map[], {}, 0, [];
      start := Client(view, {}, 0);
      reserved := Meta(lay);
      new;
      ghost var inodes', owner' := Reading(lay, view);
      inodes := LoadAll(lay, view);
      LoadedAll(lay, view, inodes, inodes', owner');
      owner := owner';
    }

    /** `inode_get` of every inode in use. */
    static method LoadAll(lay: Layout, view: Disk) returns (inodes: map<nat, Entry>)
      ensures Loaded(lay, view, inodes, lay.numInodes)
    {
      hide Stored;
      inodes := map[];
      var k := 1;
      while k < lay.numInodes
        invariant 1 <= k && Loaded(lay, view, inodes, k)
      {
        var e := Stored(lay, view, k);
        if e.kind != UNUSED {
          inodes := inodes[k := e];
        }
        k := k + 1;
      }
    }

    /** `cache_begin_op` has returned: the header entries so far, and a reservation. */
    method StartOp(logged: set<nat>, rm: nat)
      requires Sound(0)
      modifies this`logged, this`rm, this`puts, this`start
      ensures Sound(0) && (old(Tidy()) ==> Tidy())
      ensures this.logged == logged && this.rm == rm && puts == [] && start == Client(view, logged, rm)
    {
      this.logged, this.rm, puts := logged, rm, [];
      start := Client(view, logged, rm);
    }

    /** Header entries, used and reserved: what an operation adds to the header it takes from its reservation. */
    ghost function Budget(): nat
      reads this`rm, this`logged
    {
      rm + |logged|
    }

    /** Change a block and `cache_sync` it; false where that panics. */
    method Put(b: nat, d: Block) returns (ok: bool)
      requires Traced() && lay.inodeStart <= b < SWAP_START
      modifies this`view, this`logged, this`rm, this`puts
      ensures ok <==> b in old(logged) || old(rm) > 0
      ensures ok ==> view == old(view)[b := d] && logged == old(logged) + {b}
                     && rm + (if b in old(logged) then 0 else 1) == old(rm)
      ensures Spent(old(logged), {b}, logged, rm, ok)
      ensures !ok ==> view == old(view) && logged == old(logged) && rm == old(rm)
      ensures Traced() && start == old(start) && Budget() == old(Budget()) && old(logged) <= logged
    {
      ok := b in logged || rm > 0;
      if ok {
        PutsMore(lay, start, puts, Client(view, logged, rm), Change(b, d));
        puts := puts + [Change(b, d)];
        rm := if b in logged then rm else rm - 1;
        assert b in logged ==> logged + {b} == logged;
        logged := logged + {b};
        view := view[b := d];
      }
    }

    /** `cache_alloc`: the first free block, marked and zeroed; false where it panics. */
    method Alloc(ghost busy: nat) returns (ok: bool, b: nat)
      requires Sound(busy)
      modifies this`view, this`logged, this`rm, this`puts, this`reserved
      ensures ok ==> lay.bitmapStart < lay.dataStart <= b < SWAP_START && b !in old(reserved) && b !in owner
                     && At(view, b) == Zeros(512)
      ensures ok ==> Sound(busy) && reserved == old(reserved) + {b}
                     && forall k <- inodes :: SameFile(old(view), view, inodes[k])
      ensures ok ==> view == WithMark(lay, old(view), b, true)[b := Zeros(512)] && SameMeta(lay, old(view), view)
      ensures ok ==> old(Free()) != {} && b == Least(old(Free())) && Free() == old(Free()) - {b}
      ensures old(Free()) != {} ==> Spent(old(logged), {lay.bitmapStart, Least(old(Free()))}, logged, rm, ok)
      ensures Traced() && start == old(start) && Budget() == old(Budget()) && old(logged) <= logged
    {
      hide Budget, Traced, World, BitAt, WithBitAt, SameFile;
      b := 0;
      while b < SWAP_START && BitAt(At(view, lay.bitmapStart), b)
        invariant b <= SWAP_START && forall j | 0 <= j < b :: BitAt(At(view, lay.bitmapStart), j)
      {
        b := b + 1;
      }
      if b == SWAP_START {
        assert Free() == {};
        return false, b;
      }
      WorldBounds(lay, view, inodes, owner, reserved, busy);
      AllocKeeps(lay, view, inodes, owner, reserved, busy, b);
      LeastIs(Free(), b);
      ghost var l0 := logged;
      ok := Put(lay.bitmapStart, WithBitAt(At(view, lay.bitmapStart), b, true));
      if ok {
        ghost var l1 := logged;
        ok := Put(b, Zeros(512));
        SpentMore(l0, {lay.bitmapStart}, l1, {b}, logged, rm, ok);
        reserved := reserved + {b};
      } else {
        SpentFirst(l0, {lay.bitmapStart}, {b}, logged, rm);
      }
      assert {lay.bitmapStart} + {b} == {lay.bitmapStart, b};
    }

    /** A new data block at a direct place. */
    method GrowDirect(k: nat, i: nat) returns (ok: bool)
      requires Sound(k) && k in inodes && i < NUM_DIRECT && |inodes[k].addrs| == NUM_DIRECT
               && Mapped(view, inodes[k], i)
      modifies this
      ensures ok ==> SameMeta(lay, old(view), view)
      ensures ok ==> Sound(k) && reserved == old(reserved) && Given(old(view), old(inodes), view, inodes, k)
                     && Mapped(view, inodes[k], i + 1)
      ensures ok ==> old(Free()) != {} && Free() == old(Free()) - {Least(old(Free()))}
      ensures ok ==> inodes[k].addrs[i] == Least(old(Free())) && inodes[k].indirect == old(inodes[k].indirect)
      ensures ok ==> SamePlaces(old(view), old(inodes[k]), view, inodes[k], i)
      ensures old(Free()) != {} ==> Spent(old(logged), {lay.bitmapStart, Least(old(Free()))}, logged, rm, ok)
      ensures Traced() && start == old(start) && Budget() == old(Budget()) && old(logged) <= logged
    {
      hide Budget, Traced, World, Mapped, SameAddrs, FreeBlocks, Bytes, WithMark;
      var b: nat;
      ok, b := Alloc(k);
      if ok {
        SameMapped(old(view), view, inodes[k], i);
        DirectGiven(lay, view, inodes, owner, old(reserved), k, i, b);
        ghost var was := inodes;
        inodes := inodes[k := inodes[k].(addrs := inodes[k].addrs[i := b])];
        owner, reserved := owner[b := (k, i)], reserved - {b};
        assert reserved == old(reserved);
        GivenAfter(old(view), was, view, inodes, k);
        DirectPlaces(old(view), was[k], view, i, b);
      }
    }

    /** The address table itself. */
    method GrowTable(k: nat) returns (ok: bool)
      requires Sound(k) && k in inodes && |inodes[k].addrs| == NUM_DIRECT && Mapped(view, inodes[k], NUM_DIRECT)
      modifies this
      ensures ok ==> SameMeta(lay, old(view), view)
      ensures ok ==> Sound(k) && reserved == old(reserved) && Given(old(view), old(inodes), view, inodes, k)
      ensures ok ==> inodes[k].indirect != 0 && Filled(view, inodes[k], NUM_DIRECT)
      ensures ok ==> old(Free()) != {} && Free() == old(Free()) - {Least(old(Free()))}
      ensures ok ==> inodes[k].indirect == Least(old(Free()))
      ensures ok ==> SamePlaces(old(view), old(inodes[k]), view, inodes[k], NUM_DIRECT)
      ensures old(Free()) != {} ==> Spent(old(logged), {lay.bitmapStart, Least(old(Free()))}, logged, rm, ok)
      ensures Traced() && start == old(start) && Budget() == old(Budget()) && old(logged) <= logged
    {
      hide Budget, Traced, World, Mapped, SameAddrs, FreeBlocks, Bytes, WithMark;
      var b: nat;
      ok, b := Alloc(k);
      if ok {
        SameMapped(old(view), view, inodes[k], NUM_DIRECT);
        TableGiven(lay, view, inodes, owner, old(reserved), k, b);
        ghost var was := inodes;
        inodes := inodes[k := inodes[k].(indirect := b)];
        owner, reserved := owner[b := (k, TABLE)], reserved - {b};
        assert reserved == old(reserved);
        GivenAfter(old(view), was, view, inodes, k);
        MappedFilled(view, was[k], inodes[k], NUM_DIRECT);
        TablePlaces(old(view), was[k], view, b);
      }
    }

    /** A new data block listed in the address table. */
    method GrowListed(k: nat, i: nat) returns (ok: bool)
      requires Sound(k) && k in inodes && |inodes[k].addrs| == NUM_DIRECT && NUM_DIRECT <= i < MAX_BLOCKS
      requires inodes[k].indirect != 0 && Filled(view, inodes[k], i)
      modifies this
      ensures ok ==> SameMeta(lay, old(view), view)
      ensures ok ==> Sound(k) && reserved == old(reserved) && inodes == old(inodes)
                     && Given(old(view), old(inodes), view, inodes, k)
      ensures ok ==> Mapped(view, inodes[k], i + 1) && old(Free()) != {} && Free() == old(Free()) - {Least(old(Free()))}
      ensures ok ==> Addr(view, inodes[k], i) == Least(old(Free()))
      ensures ok ==> SamePlaces(old(view), old(inodes[k]), view, inodes[k], i)
      ensures old(Free()) != {} ==>
                Spent(old(logged), {lay.bitmapStart, Least(old(Free()))} + {old(inodes[k].indirect)}, logged, rm, ok)
      ensures Traced() && start == old(start) && Budget() == old(Budget()) && old(logged) <= logged
    {
      hide Budget, Traced, World, Mapped, SameAddrs, FreeBlocks, Bytes, WithMark, WithWord, WordAt;
      var b: nat;
      ok, b := Alloc(k);
      if ok {
        var t, view1 := inodes[k].indirect, view;
        FilledSame(old(view), view, inodes[k], i);
        TableOwned(lay, view, inodes, owner, reserved, k);
        ListedGiven(lay, view, inodes, owner, old(reserved), k, i, b);
        ElsewhereFree(lay, view, t, WithWord(At(view, t), 4, i - NUM_DIRECT, b));
        ListedAddrs(view, inodes[k], i, b);
        ghost var l1 := logged;
        ok := Put(t, WithWord(At(view, t), 4, i - NUM_DIRECT, b));
        SpentMore(old(logged), {lay.bitmapStart, b}, l1, {t}, logged, rm, ok);
        if ok {
          ListedPlaces(old(view), view1, inodes[k], i, b);
          owner, reserved := owner[b := (k, i)], reserved - {b};
          assert reserved == old(reserved);
          GivenBefore(old(view), view1, view, inodes, k);
        }
      } else if old(Free()) != {} {
        SpentFirst(old(logged), {lay.bitmapStart, Least(old(Free()))}, {inodes[k].indirect}, logged, rm);
      }
    }

    /** The places that the address table lists. */
    method MapListed(k: nat, i: nat, ghost n: nat) returns (ok: bool, b: nat)
      requires Sound(k) && k in inodes && |inodes[k].addrs| == NUM_DIRECT && Mapped(view, inodes[k], n) && i <= n
      requires NUM_DIRECT <= i < MAX_BLOCKS
      modifies this
      ensures ok ==> SameMeta(lay, old(view), view)
      ensures ok ==> Sound(k) && reserved == old(reserved)
                     && Given(old(view), old(inodes), view, inodes, k)
      ensures ok ==> Mapped(view, inodes[k], if i < n then n else n + 1) && b == Addr(view, inodes[k], i)
      ensures i < n ==> ok && view == old(view) && inodes == old(inodes) && owner == old(owner)
                        && logged == old(logged) && rm == old(rm)
      ensures ok ==> Moved(old(Free()), n, Max(n, i + 1), old(view), old(inodes[k]), view, inodes[k], Free())
      ensures ok && i == n ==> b in logged
      ensures Cost(Max(n, i + 1)) <= |old(Free())| + Cost(n) ==>
                Spent(old(logged), Growth(lay, old(Free()), old(inodes[k].indirect), n, Max(n, i + 1)), logged, rm, ok)
      ensures Traced() && start == old(start) && Budget() == old(Budget()) && old(logged) <= logged
    {
      hide Budget, Traced, World, Filled, SameFile, FreeBlocks, Bytes, WithMark, WithWord, WordAt, Moved, Growth, Spent;
      hide SamePlaces, Cost, Listing;
      MappedAt(view, inodes[k], n, i);
      GivenSame(lay, view, inodes, owner, reserved, k, k);
      ghost var free, e, l0, view0 := Free(), inodes[k], logged, view;
      ok, b := true, 0;
      if inodes[k].indirect == 0 {
        ok := GrowTable(k);
        if ok {
          FilledAt(view, inodes[k], NUM_DIRECT, i);
        }
      }
      ghost var view1, inodes1, free1, l1, rm1, ok1 := view, inodes, Free(), logged, rm, ok;
      if ok && WordAt(At(view, inodes[k].indirect), 4, i - NUM_DIRECT) == 0 {
        ok := GrowListed(k, i);
        if ok {
          GivenTrans(old(view), old(inodes), view1, inodes1, view, inodes, k);
          SameMetaTrans(lay, view0, view1, view);
        }
      }
      if ok {
        b := WordAt(At(view, inodes[k].indirect), 4, i - NUM_DIRECT);
      }
      if i < n {
        NothingCost(lay, free, n, view, e, logged, rm);
      } else if e.indirect != 0 {
        IsListed(e.indirect, n + 1);
        OneCost(lay, free, n, e.indirect, view0, e, view, if ok then inodes[k] else e, Free(), l0, logged, rm, ok);
      } else {
        TwoCost(lay, free, view0, e, l0, view1, if ok1 then inodes1[k] else e, free1, l1, rm1, ok1,
          view, if ok then inodes[k] else e, Free(), logged, rm, ok);
      }
    }

    /** `inode_map`: the block at place `i`, allocated if it is the first missing one; false where it panics. */
    method Map(k: nat, i: nat, ghost n: nat) returns (ok: bool, b: nat)
      requires Sound(k) && k in inodes && |inodes[k].addrs| == NUM_DIRECT && Mapped(view, inodes[k], n) && i <= n
      modifies this
      ensures ok ==> SameMeta(lay, old(view), view)
      ensures ok ==> i < MAX_BLOCKS && Sound(k) && reserved == old(reserved)
                     && Given(old(view), old(inodes), view, inodes, k)
      ensures ok ==> Mapped(view, inodes[k], if i < n then n else n + 1) && b == Addr(view, inodes[k], i)
      ensures i < n ==> ok && view == old(view) && inodes == old(inodes) && owner == old(owner)
                        && logged == old(logged) && rm == old(rm)
      ensures ok ==> Moved(old(Free()), n, Max(n, i + 1), old(view), old(inodes[k]), view, inodes[k], Free())
      ensures ok && i == n ==> b in logged
      ensures i < MAX_BLOCKS && Cost(Max(n, i + 1)) <= |old(Free())| + Cost(n) ==>
                Spent(old(logged), Growth(lay, old(Free()), old(inodes[k].indirect), n, Max(n, i + 1)), logged, rm, ok)
      ensures Traced() && start == old(start) && Budget() == old(Budget()) && old(logged) <= logged
    {
      hide Budget, Traced, World, Filled, SameFile, FreeBlocks, Bytes, Moved, Growth, Spent, Cost;
      b := 0;
      if i < NUM_DIRECT {
        MappedAt(view, inodes[k], n, i);
        GivenSame(lay, view, inodes, owner, reserved, k, k);
        ghost var free, e := Free(), inodes[k];
        ok := true;
        if inodes[k].addrs[i] == 0 {
          ok := GrowDirect(k, i);
          NotListed(e.indirect, n + 1, {lay.bitmapStart, if free == {} then 0 else Least(free)});
          OneCost(lay, free, n, e.indirect, old(view), e, view, if ok then inodes[k]
              else e, Free(), old(logged), logged, rm, ok);
        } else {
          NothingCost(lay, free, n, view, e, logged, rm);
        }
        if ok {
          b := inodes[k].addrs[i];
        }
      } else if i < MAX_BLOCKS {
        ok, b := MapListed(k, i, n);
      } else {
        ok := false;
      }
    }

    /** One round of the loop in `inode_write`. */
    method WriteBlock(k: nat, i: nat, at: nat, s: seq<byte>, ghost n: nat) returns (ok: bool)
      requires Sound(k) && k in inodes && |inodes[k].addrs| == NUM_DIRECT && Mapped(view, inodes[k], n) && i <= n
               && at + |s| <= 512
      modifies this
      ensures ok ==> SameMeta(lay, old(view), view)
      ensures ok ==> i < MAX_BLOCKS && Sound(k) && reserved == old(reserved)
                     && Wrote(old(view), old(inodes), view, inodes, k, 512 * i + at, s)
      ensures ok ==> Mapped(view, inodes[k], if i < n then n else n + 1) && (i < n ==> inodes == old(inodes))
      ensures ok ==> Moved(old(Free()), n, Max(n, i + 1), old(view), old(inodes[k]), view, inodes[k], Free())
      ensures i < MAX_BLOCKS && Cost(Max(n, i + 1)) <= |old(Free())| + Cost(n) ==>
                Spent(old(logged), RoundCost(lay, old(view), old(inodes[k]), old(Free()), n, i), logged, rm, ok)
      ensures Traced() && start == old(start) && Budget() == old(Budget()) && old(logged) <= logged
    {
      hide Budget, Traced, Cost, World, Mapped, SameFile, FreeBlocks, Bytes, Addr, Spliced, Wrote, Moved, Growth, Spent,
        RoundCost, SameAddrs;
      MappedBound(view, inodes[k], n);
      var b: nat;
      ok, b := Map(k, i, n);
      ghost var l1, rm1, ok1 := logged, rm, ok;
      if ok {
        ghost var view1, n1 := view, if i < n then n else n + 1;
        MappedBound(view, inodes[k], n1);
        OverwriteBlock(lay, view, inodes, owner, reserved, k, i, at, s, n1);
        ok := Put(b, Spliced(At(view, b), at, s));
        if ok {
          WroteAfter(old(view), old(inodes), view1, view, inodes, k, 512 * i + at, s);
          MovedSame(old(Free()), n, n1, old(view), old(inodes[k]), view1, inodes[k], Free(), view);
        }
      }
      if i < MAX_BLOCKS && Cost(Max(n, i + 1)) <= |old(Free())| + Cost(n) {
        RoundSpent(lay, old(view), old(inodes[k]), old(Free()), n, i, b, old(logged), l1, rm1, ok1, logged, rm, ok);
      }
    }

    /** The loop of `inode_write`; false where it panics. */
    method WriteBlocks(k: nat, src: seq<byte>, offset: nat, ghost n0: nat) returns (ok: bool, done: nat)
      requires Sound(k) && k in inodes && |inodes[k].addrs| == NUM_DIRECT && Mapped(view, inodes[k], n0)
               && offset / 512 <= n0
      requires offset + |src| <= MAX_BYTES
      modifies this
      ensures ok ==> SameMeta(lay, old(view), view)
      ensures ok ==> offset + |src| > 0 && Sound(k) && reserved == old(reserved) && done == |src|
      ensures ok ==> Wrote(old(view), old(inodes), view, inodes, k, offset, src)
                     && Mapped(view, inodes[k], Max(n0, BlocksFor(offset + |src|)))
      ensures ok ==> BlocksFor(offset + |src|) <= n0 ==> inodes == old(inodes)
      ensures ok ==> Cost(Max(n0, BlocksFor(offset + |src|))) <= |old(Free())| + Cost(n0)
                     && |Free()| + Cost(Max(n0, BlocksFor(offset + |src|))) == |old(Free())| + Cost(n0)
      ensures offset + |src| > 0 && n0 <= MAX_BLOCKS
              && Cost(Max(n0, BlocksFor(offset + |src|))) <= |old(Free())| + Cost(n0) ==>
                Spent(old(logged), LoopCost(lay, old(view), old(inodes[k]), old(Free()), n0, offset / 512,
                                            BlocksFor(offset + |src|)), logged, rm, ok)
      ensures Traced() && start == old(start) && Budget() == old(Budget()) && old(logged) <= logged
    {
      hide Budget, Traced, World, Mapped, FreeBlocks, Bytes, Spliced, Others, Wrote, SameMeta, Position, Touched,
        BlocksFor, Chunk, Last, Moved, Spent, LoopCost, RoundCost, Cost;
      MappedBound(view, inodes[k], n0);
      ghost var first, e0, free0 := offset / 512, inodes[k], Free();
      LoopStart(lay, view, e0, free0, n0, first, logged, rm);
      assert Position(offset, |src|, offset / 512, 0) by { AtStart(offset, |src|); }
      var end := offset + |src|;
      WroteNothing(lay, view, inodes, owner, reserved, k, k, offset);
      assert src[..0] == [] && SameMeta(lay, view, view) by { SameMetaSame(lay, view); }
      var i := offset / 512;
      done := 0;
      while i <= Last(end)
        invariant done <= |src| && offset / 512 <= i && Position(offset, |src|, i, done) && k in inodes
                  && |inodes[k].addrs| == NUM_DIRECT
        invariant SameMeta(lay, old(view), view) && Sound(k) && reserved == old(reserved)
                  && Mapped(view, inodes[k], Max(n0, i))
        invariant end > 0 ==> Wrote(old(view), old(inodes), view, inodes, k, offset, src[..done])
        invariant i <= n0 ==> inodes == old(inodes)
        invariant Cost(Max(n0, i)) <= |free0| + Cost(n0)
                  && Moved(free0, n0, Max(n0, i), old(view), e0, view, inodes[k], Free())
        invariant Spent(old(logged), LoopCost(lay, old(view), e0, free0, n0, first, i), logged, rm, true)
        invariant Budget() == old(Budget()) && old(logged) <= logged && start == old(start)
        decreases Last(end) + 1 - i
      {
        var m, at := Chunk(offset, |src|, i, done), (offset + done) % 512;
        var s := src[done..done + m];
        ghost var view1, inodes1, free1, l1, rm1 := view, inodes, Free(), logged, rm;
        assert src[..done + m] == src[..done] + s;
        if end > 0 {
          NotYet(offset, |src|, i, done, n0);
        }
        ok := WriteBlock(k, i, at, s, Max(n0, i));
        if !ok {
          if end > 0 && Cost(Max(n0, BlocksFor(end))) <= |free0| + Cost(n0) {
            BlocksBound(end);
            RoundFails(lay, old(view), e0, free0, n0, first, i, BlocksFor(end), old(logged), view1, inodes1[k], free1,
              l1,
              rm1, logged, rm);
          }
          return;
        }
        if end > 0 {
          WroteMore(old(view), old(inodes), view1, inodes1, view, inodes, k, offset, src[..done], s);
        }
        SameMetaTrans(lay, old(view), view1, view);
        WroteWhole(view1, inodes1, view, inodes, k, 512 * i + at, s);
        RoundOk(lay, old(view), e0, free0, n0, first, i, old(logged), view1, inodes1[k], free1, l1, rm1, view,
          inodes[k],
          Free(), logged, rm);
        i, done := i + 1, done + m;
      }
      AtEnd(offset, |src|, i, done, n0);
      MovedCount(free0, n0, Max(n0, i), old(view), e0, view, inodes[k], Free());
      ok := true;
      assert src[..done] == src;
    }

    /** `inode_sync` of an inode that is not loaded yet: what is on disk is what was last stored. */
    method LoadInode(k: nat) returns (e: Entry)
      requires Sound(0) && 0 < k < lay.numInodes
      ensures |e.addrs| == NUM_DIRECT && (k in inodes ==> e == inodes[k])
    {
      e := EntryAt(At(view, InodeBlock(lay, k)), k % INODES_PER_BLOCK);
    }

    /** `inode_sync` of a loaded inode; false where it panics. */
    method SyncInode(k: nat) returns (ok: bool)
      requires Sound(k) && k in inodes && |inodes[k].addrs| == NUM_DIRECT
               && Mapped(view, inodes[k], BlocksFor(inodes[k].size))
      modifies this`view, this`logged, this`rm, this`puts
      ensures ok <==> InodeBlock(lay, k) in old(logged) || old(rm) > 0
      ensures ok ==> Sound(0) && (forall j <- inodes :: SameFile(old(view), view, inodes[j]))
                     && FreeBlocks(lay, view) == FreeBlocks(lay, old(view))
      ensures ok ==> StoredBut(lay, old(view), view, k) && rm + 1 >= old(rm) && InodeBlock(lay, k) in logged
      ensures !ok ==> rm == old(rm) == 0
      ensures Spent(old(logged), {InodeBlock(lay, k)}, logged, rm, ok)
      ensures Traced() && start == old(start) && Budget() == old(Budget()) && old(logged) <= logged
    {
      hide Budget, Traced, World, Mapped, SameFile, FreeBlocks, WithEntry, StoredBut;
      var b := InodeBlock(lay, k);
      InodeStored(lay, view, inodes, owner, reserved, k);
      OneStored(lay, view, k, inodes[k]);
      ok := Put(b, WithEntry(At(view, b), k % INODES_PER_BLOCK, inodes[k]));
    }

    /** The end of `inode_write`: a file that has grown is stored with its new size; false where that panics. */
    method Extend(k: nat, end: nat, ghost view0: Disk, ghost owner0: map<nat, (nat, nat)>, ghost reserved0: set<nat>,
                  ghost n: nat)
      returns (ok: bool)
      requires Sound(k) && k in inodes && |inodes[k].addrs| == NUM_DIRECT && end <= MAX_BYTES
      requires SameMeta(lay, view0, view) && Mapped(view, inodes[k], n) && n == BlocksFor(Max(inodes[k].size, end))
      requires end <= inodes[k].size ==> World(lay, view0, inodes, owner0, reserved0, 0)
      modifies this`view, this`logged, this`rm, this`puts, this`inodes
      ensures ok ==> Sound(0) && inodes == old(inodes)[k := old(inodes[k]).(size := Max(old(inodes[k].size), end))]
      ensures ok ==> Whole(inodes) && Bytes(old(view), inodes[k]) == Bytes(old(view), old(inodes[k]))
      ensures ok ==> forall j <- inodes :: SameFile(old(view), view, inodes[j])
      ensures ok ==> StoredBut(lay, view0, view, k) && FreeBlocks(lay, view) == FreeBlocks(lay, old(view))
      ensures Spent(old(logged), if end > old(inodes[k].size) then {InodeBlock(lay, k)} else {}, logged, rm, ok)
      ensures Traced() && start == old(start) && Budget() == old(Budget()) && old(logged) <= logged
    {
      hide Budget, Traced, World, Mapped, FreeBlocks, Bytes, BlocksFor, SameMeta, StoredBut, SameFile;
      ghost var view1 := view;
      MetaStoredBy(lay, view0, view1, inodes, owner, reserved, k, k);
      ok := true;
      if end > inodes[k].size {
        Resized(lay, view, inodes, owner, reserved, k, end, n);
        inodes := inodes[k := inodes[k].(size := end)];
        ok := SyncInode(k);
        if ok {
          StoredButTrans(lay, view0, view1, view, k);
        }
      } else {
        Settle(lay, view0, view, inodes, owner0, reserved0, owner, reserved, k);
        WorldWhole(lay, view, inodes, owner, reserved, 0);
        AllSame(view, inodes);
      }
      if ok {
        WorldWhole(lay, view, inodes, owner, reserved, 0);
      }
    }

    /** `inode_write`. */
    method Write(k: nat, src: seq<byte>, offset: nat) returns (r: Outcome)
      requires Sound(0) && k in inodes && |inodes[k].addrs| == NUM_DIRECT && inodes[k].size <= MAX_BYTES
               && offset < U64 && |src| < U64
      modifies this
      ensures old(inodes[k].kind) == DEVICE ==> r == (if old(inodes[k].major) == 1 then Console else Panic)
      ensures old(inodes[k].kind) == DEVICE ==>
                Sound(0) && view == old(view) && inodes == old(inodes) && reserved == old(reserved)
      ensures old(inodes[k].kind) != DEVICE ==> r.Done? || r.Panic?
      ensures old(inodes[k].kind) != DEVICE ==>
                (r.Panic? <==> || offset > old(inodes[k].size) || offset + |src| > MAX_BYTES || offset + |src| == 0
                               || old(Unaffordable(lay, view, inodes[k], k, logged, rm, offset, offset + |src|)))
      ensures Traced() && start == old(start) && Budget() == old(Budget()) && old(logged) <= logged
      ensures r.Done? ==> !BadWrite(old(inodes[k].size), offset, |src|) && r.n == |src| && Sound(0)
                          && reserved == old(reserved)
      ensures r.Done? ==> k in inodes
                          && inodes[k] == old(inodes[k]).(addrs := inodes[k].addrs, indirect := inodes[k].indirect,
                          size := Max(old(inodes[k].size), offset + |src|))
      ensures r.Done? ==> |inodes[k].addrs| == NUM_DIRECT && inodes[k].size <= MAX_BYTES
      ensures r.Done? ==> StoredBut(lay, old(view), view, k) && (old(Tidy()) ==> Tidy())
      ensures r.Done? ==>
                SyncsExactly(lay, old(view), old(inodes[k]), k, offset, offset + |src|, old(logged), logged)
      ensures r.Done? ==> Content(view, inodes[k]) == Overwritten(old(Content(view, inodes[k])), offset, src)
      ensures r.Done? ==> Whole(old(inodes)) && Others(old(view), old(inodes), view, inodes, k)
      ensures r.Done? ==> |Free()| + Cost(BlocksFor(inodes[k].size)) ==
                            |old(Free())| + Cost(BlocksFor(old(inodes[k].size)))
    {
      hide Traced, World, Mapped, FreeBlocks, Bytes, Spliced, BlocksFor, Others, Content, Overwritten,
        SameMeta, StoredBut, InUse, Unaffordable, Spent, LoopCost, Cost;
      var end := (offset + |src|) % U64;
      var e := inodes[k];
      if e.kind == DEVICE {
        return if e.major == 1 then Console else Panic;
      }
      if offset > e.size || end > MAX_BYTES || offset > end {
        return Panic;
      }
      ghost var n0 := BlocksFor(e.size);
      BlocksMax(e.size, offset, end);
      Begin(lay, view, inodes, owner, reserved, k);
      MappedBound(view, e, n0);
      var ok, done := WriteBlocks(k, src, offset, n0);
      ghost var view1, inodes1, l1, rm1, ok1 := view, inodes, logged, rm, ok;
      if ok {
        ok := Extend(k, end, old(view), old(owner), old(reserved), Max(n0, BlocksFor(end)));
      }
      if end > 0 {
        Verdict(lay, old(view), e, k, offset, end, old(logged), old(rm), l1, rm1, ok1, logged, rm, ok);
      }
      if !ok {
        return Panic;
      }
      WroteContent(old(view), old(inodes), view1, inodes1, view, inodes, k, offset, src);
      StillInUse(lay, old(view), old(inodes), old(owner), view, inodes, owner, reserved, k);
      return Done(done);
    }

    /** One round of the loop in `inode_read`. */
    method ReadBlock(k: nat, i: nat, off: nat, m: nat) returns (data: seq<byte>)
      requires Sound(0) && k in inodes && |inodes[k].addrs| == NUM_DIRECT && off / 512 == i && off % 512 + m <= 512
      requires off + m <= inodes[k].size <= MAX_BYTES && i < BlocksFor(inodes[k].size)
      modifies this
      ensures view == old(view) && inodes == old(inodes) && owner == old(owner) && reserved == old(reserved)
              && logged == old(logged) && rm == old(rm)
      ensures Sound(0) && start == old(start) && data == Content(view, inodes[k])[off..off + m]
    {
      hide Budget, Traced, World, Mapped, Given, Bytes, FreeBlocks, Addr, Moved, Spent, Growth, Cost;
      Begin(lay, view, inodes, owner, reserved, k);
      ghost var n := BlocksFor(inodes[k].size);
      MappedAt(view, inodes[k], n, i);
      var ok, b := Map(k, i, n);
      PartOfFile(view, inodes[k], i, off, m);
      data := At(view, b)[off % 512..off % 512 + m];
    }

    /** The loop of `inode_read`, on the part of the file that is there. */
    method ReadBlocks(k: nat, offset: nat, count: nat) returns (data: seq<byte>)
      requires Sound(0) && k in inodes && |inodes[k].addrs| == NUM_DIRECT && 0 < count
               && offset + count <= inodes[k].size <= MAX_BYTES
      modifies this
      ensures view == old(view) && inodes == old(inodes) && owner == old(owner) && reserved == old(reserved)
              && logged == old(logged) && rm == old(rm)
      ensures Sound(0) && start == old(start) && data == Content(view, inodes[k])[offset..offset + count]
    {
      hide Budget, Traced, World, Position, Touched, Chunk, Content, BlocksFor;
      ghost var n := BlocksFor(inodes[k].size);
      ghost var c := Content(view, inodes[k]);
      assert Position(offset, count, offset / 512, 0) by { AtStart(offset, count); }
      BlocksMax(inodes[k].size, offset, offset + count);
      var i: nat, done: nat := offset / 512, 0;
      data := [];
      while i <= (offset + count - 1) / 512
        invariant done <= count && offset / 512 <= i && Position(offset, count, i, done)
        invariant view == old(view) && inodes == old(inodes) && owner == old(owner) && reserved == old(reserved)
                  && logged == old(logged) && rm == old(rm)
        invariant Sound(0) && start == old(start) && data == c[offset..offset + done]
      {
        NotYet(offset, count, i, done, n);
        var m := Chunk(offset, count, i, done);
        var part := ReadBlock(k, i, offset + done, m);
        data := data + part;
        i, done := i + 1, done + m;
      }
      AtEnd(offset, count, i, done, n);
    }

    /** `inode_read`; reads inside the file never allocate. */
    method Read(k: nat, offset: nat, count: nat) returns (r: Outcome, data: seq<byte>)
      requires Sound(0) && k in inodes && |inodes[k].addrs| == NUM_DIRECT && inodes[k].size <= MAX_BYTES
               && offset < U64 && count < U64
      modifies this
      ensures view == old(view) && inodes == old(inodes) && owner == old(owner) && reserved == old(reserved)
              && logged == old(logged) && rm == old(rm)
      ensures Sound(0) && start == old(start)
      ensures inodes[k].kind == DEVICE ==> r == if inodes[k].major == 1 then Console else Panic
      ensures inodes[k].kind != DEVICE ==>
                (r.Panic? <==> offset > inodes[k].size || offset + count >= U64) && !r.Console?
      ensures r.Done? ==> offset <= inodes[k].size && r.n == |data|
      ensures r.Done? ==> data ==
                            Content(view, inodes[k])[offset..if inodes[k].size < offset + count then inodes[k].size
                              else offset + count]
    {
      hide Budget, Traced, World, Bytes, ReadCount, ReadEnd;
      var e := inodes[k];
      ReadWindow(e.size, offset, count);
      data := [];
      if e.kind == DEVICE {
        return if e.major == 1 then Console else Panic, [];
      }
      var n, end := ReadCount(e.size, offset, count), ReadEnd(e.size, offset, count);
      if offset > e.size || end > e.size || offset > end {
        return Panic, [];
      }
      if n == 0 {
        return Done(0), [];
      }
      data := ReadBlocks(k, offset, n);
      return Done(|data|), data;
    }

    // Clearing.

    ghost predicate Clearing(s: Snap, k: nat, i: nat)
      reads this
    {
      && s.lay == lay && Startable(s, k) && Cleared(s, k, i, view, owner, reserved, logged, rm) && Traced()
      && i <= |PlacesOf(s, k)| && Separate(PlacesOf(s, k))
      && forall b <- PlacesOf(s, k) :: b != 0 ==> lay.dataStart <= b < SWAP_START && b !in s.reserved
    }

    /** The first block could not be freed. */
    ghost predicate Stuck(s: Snap, k: nat)
      reads this
    {
      rm == 0 && logged == s.logged && Begun(s, k, TABLE + 1)
    }

    /** Free the block at place `i`, if there is one; false where `cache_free` panics. */
    method FreePlace(b: nat, ghost s: Snap, ghost k: nat, ghost i: nat) returns (ok: bool)
      requires Clearing(s, k, i) && i <= TABLE && |PlacesOf(s, k)| == TABLE + 1 && b == PlacesOf(s, k)[i]
      modifies this`view, this`logged, this`rm, this`puts, this`reserved
      ensures ok ==> Clearing(s, k, i + 1)
      ensures !ok ==> s.rm == 0 && lay.bitmapStart !in s.logged && Stuck(s, k)
      ensures Traced() && start == old(start) && Budget() == old(Budget())
    {
      hide Startable, PlacesOf, Separate, WithBitAt, World, SameFile, Traced;
      WorldBounds(lay, view, s.inodes - {k}, owner, reserved, 0);
      ok := true;
      if b == 0 {
        ClearSkip(s, k, i, view, owner, reserved, logged, rm);
      } else {
        assert b in PlacesOf(s, k);
        assert b in Rest(PlacesOf(s, k), 0) && Rest(PlacesOf(s, k), TABLE + 1) == {};
        ok := Put(lay.bitmapStart, WithBitAt(At(view, lay.bitmapStart), b, false));
        if ok {
          ClearStep(s, k, i, old(view), owner, reserved, old(logged), old(rm), rm);
          reserved := reserved - {b};
        }
      }
    }

    method ClearDirect(k: nat, ghost s: Snap) returns (ok: bool)
      requires Clearing(s, k, 0) && |PlacesOf(s, k)| == TABLE + 1 && inodes == s.inodes && k in inodes
               && |inodes[k].addrs| == NUM_DIRECT
      requires forall i | 0 <= i < NUM_DIRECT :: PlacesOf(s, k)[i] == inodes[k].addrs[i]
      modifies this
      ensures ok ==> Clearing(s, k, NUM_DIRECT) && k in inodes
                     && inodes == s.inodes[k := s.inodes[k].(addrs := inodes[k].addrs)]
      ensures ok ==> |inodes[k].addrs| == NUM_DIRECT && forall j | 0 <= j < NUM_DIRECT :: inodes[k].addrs[j] == 0
      ensures !ok ==> s.rm == 0 && lay.bitmapStart !in s.logged && Stuck(s, k)
      ensures Traced() && start == old(start) && Budget() == old(Budget())
    {
      hide Traced, Startable, PlacesOf, Separate, Cleared, Begun;
      var i := 0;
      while i < NUM_DIRECT
        invariant 0 <= i <= NUM_DIRECT && Clearing(s, k, i) && k in inodes && |inodes[k].addrs| == NUM_DIRECT
        invariant inodes == s.inodes[k := s.inodes[k].(addrs := inodes[k].addrs)] && start == old(start)
        invariant Budget() == old(Budget())
        invariant forall j | 0 <= j < NUM_DIRECT :: inodes[k].addrs[j] == if j < i then 0 else s.inodes[k].addrs[j]
      {
        ok := FreePlace(inodes[k].addrs[i], s, k, i);
        if !ok {
          return;
        }
        inodes := inodes[k := inodes[k].(addrs := inodes[k].addrs[i := 0])];
        i := i + 1;
      }
      ok := true;
    }

    method ClearListed(k: nat, ghost s: Snap) returns (ok: bool)
      requires Clearing(s, k, NUM_DIRECT) && |PlacesOf(s, k)| == TABLE + 1 && k in inodes && k in s.inodes
               && inodes[k].indirect == s.inodes[k].indirect != 0
      modifies this`view, this`logged, this`rm, this`puts, this`reserved
      ensures ok ==> Clearing(s, k, TABLE)
      ensures !ok ==> s.rm == 0 && lay.bitmapStart !in s.logged && Stuck(s, k)
      ensures Traced() && start == old(start) && Budget() == old(Budget())
    {
      hide Traced, Startable, PlacesOf, Separate, WordAt, World, SameFile, Rest, Begun;
      KeyBounds(s, k);
      var i: nat := 0;
      while i < NUM_INDIRECT
        invariant i <= NUM_INDIRECT && Clearing(s, k, NUM_DIRECT + i) && start == old(start)
        invariant Budget() == old(Budget())
      {
        StillListed(s, k, view, NUM_DIRECT + i);
        ok := FreePlace(WordAt(At(view, inodes[k].indirect), 4, i), s, k, NUM_DIRECT + i);
        if !ok {
          return;
        }
        i := i + 1;
      }
      ok := true;
    }

    /** Free every block of an inode and forget them. */
    method ClearBlocks(k: nat, ghost s: Snap) returns (ok: bool)
      requires Sound(0) && k in inodes && |inodes[k].addrs| == NUM_DIRECT
               && s == Snap(lay, view, inodes, owner, reserved, logged, rm)
      modifies this
      ensures ok ==> Clearing(s, k, TABLE + 1) && k in inodes
      ensures ok ==> inodes == s.inodes[k := s.inodes[k].(indirect := 0, addrs := inodes[k].addrs)]
      ensures ok ==> |inodes[k].addrs| == NUM_DIRECT && forall j | 0 <= j < NUM_DIRECT :: inodes[k].addrs[j] == 0
      ensures Spent(s.logged, if s.inodes[k].size > 0 then {lay.bitmapStart} else {}, logged, rm, ok)
      ensures !ok ==> s.rm == 0
      ensures Traced() && start == old(start) && Budget() == old(Budget())
    {
      hide Traced, World, PlacesOf, Separate, Mine, Cleared, Begun, Spent;
      ClearStart(s, k);
      PlacesAre(s, k);
      owner, reserved := owner - Mine(owner, k), reserved + Mine(owner, k);
      ok := ClearDirect(k, s);
      if ok && inodes[k].indirect != 0 {
        ok := ClearListed(k, s);
        if ok {
          ok := FreePlace(inodes[k].indirect, s, k, TABLE);
          inodes := inodes[k := inodes[k].(indirect := 0)];
        }
      } else if ok {
        ClearNoTable(s, k, view, owner, reserved, logged, rm);
      }
      if ok {
        ClearedSpent(s, k, view, owner, reserved, logged, rm);
      } else {
        StuckSpent(s, k, rm);
      }
    }

    /** `inode_clear`; false where it panics. */
    method Clear(k: nat) returns (ok: bool)
      requires Sound(0) && k in inodes && |inodes[k].addrs| == NUM_DIRECT
      modifies this
      ensures ok ==> Sound(0) && k in inodes
                     && inodes[k] == old(inodes[k]).(size := 0, indirect := 0, addrs := inodes[k].addrs)
      ensures ok ==> |inodes[k].addrs| == NUM_DIRECT && Content(view, inodes[k]) == []
      ensures ok ==> Whole(old(inodes)) && Others(old(view), old(inodes), view, inodes, k)
      ensures ok ==> reserved == old(reserved) && owner == old(owner) - Mine(old(owner), k)
      ensures ok ==> StoredBut(lay, old(view), view, k) && (old(Tidy()) ==> Tidy())
      ensures ok ==> rm + 2 >= old(rm) && InodeBlock(lay, k) in logged
      ensures ok <==> |ClearSet(lay, old(inodes[k].size), k) - old(logged)| <= old(rm)
      ensures !ok ==> old(rm) < 2
      ensures Traced() && start == old(start) && Budget() == old(Budget())
    {
      hide Traced, Spent, ClearSet, World, PlacesOf, Separate, Mine, SameFile, Bytes, Mapped, Content, Others, Rest,
        StoredBut, InUse;
      ghost var s := Snap(lay, view, inodes, owner, reserved, logged, rm);
      ok := ClearBlocks(k, s);
      ghost var l1, rm1, ok1 := logged, rm, ok;
      if ok {
        ghost var view1 := view;
        ClearEnd(s, k, view, owner, reserved, logged, rm, inodes[k].(size := 0));
        inodes := inodes[k := inodes[k].(size := 0)];
        assert inodes == s.inodes[k := inodes[k]];
        assert SameMeta(lay, s.view, view1);
        MetaStoredBy(lay, s.view, view1, inodes, owner, reserved, k, k);
        ok := SyncInode(k);
        if ok {
          StoredButTrans(lay, s.view, view1, view, k);
          StillInUse(lay, s.view, s.inodes, s.owner, view, inodes, owner, reserved, k);
          WorldWhole(lay, view, inodes, owner, reserved, 0);
          OthersAfter(s.view, s.inodes, view1, view, inodes, k);
        }
      }
      ClearVerdict(lay, s.inodes[k].size, k, s.logged, s.rm, l1, rm1, ok1, logged, rm, ok);
    }

    // Inodes come and go.

    /** `inode_alloc`: the first inode not in use, stored empty; false where it panics. */
    method AllocInode(kind: nat) returns (ok: bool, k: nat)
      requires Sound(0) && InUse(lay, view, inodes) && UNUSED < kind < 0x1_0000
      modifies this`view, this`logged, this`rm, this`puts, this`inodes
      ensures 0 < k && (forall j: nat | 0 < j < k && j < lay.numInodes :: j in old(inodes))
      ensures k < lay.numInodes ==> k !in old(inodes)
      ensures ok <==> k < lay.numInodes && (InodeBlock(lay, k) in old(logged) || old(rm) > 0)
      ensures ok ==> Sound(0) && InUse(lay, view, inodes) && inodes == old(inodes)[k := Fresh(kind)]
      ensures ok ==> Content(view, inodes[k]) == [] && StoredBut(lay, old(view), view, k)
      ensures ok ==> forall j <- old(inodes) :: j in inodes && |inodes[j].addrs| == NUM_DIRECT
                                                && SameFile(old(view), view, inodes[j])
      ensures ok ==> old(Tidy()) ==> Tidy()
      ensures Traced() && start == old(start)
    {
      hide Traced, World, Stored, InUse, StoredBut, SameFile, Mapped, Bytes;
      k := 1;
      while k < lay.numInodes && Stored(lay, view, k).kind != UNUSED
        invariant 1 <= k && forall j: nat | 0 < j < k && j < lay.numInodes :: Stored(lay, view, j).kind != UNUSED
      {
        k := k + 1;
      }
      UsedBelow(lay, view, inodes, k);
      ok := k < lay.numInodes;
      if ok {
        ghost var inodes0, view0 := inodes, view;
        Reborn(lay, view, inodes, owner, reserved, k, Fresh(kind));
        inodes := inodes[k := Fresh(kind)];
        ok := SyncInode(k);
        if ok {
          TableHas(lay, view, inodes, owner, reserved, k);
          InUseChanged(lay, view0, inodes0, view, k, inodes[k]);
          WorldWhole(lay, view, inodes, owner, reserved, 0);
          SameContent(view0, view, inodes[k]);
        }
      }
    }

    /** The end of an inode in `inode_put`: its blocks are freed and it is no longer in use; false where it panics. */
    method FreeInode(k: nat) returns (ok: bool)
      requires Sound(0) && InUse(lay, view, inodes) && k in inodes && |inodes[k].addrs| == NUM_DIRECT
      modifies this
      ensures ok ==> Sound(0) && InUse(lay, view, inodes) && inodes == old(inodes) - {k} && reserved == old(reserved)
      ensures ok ==> owner == old(owner) - Mine(old(owner), k) && StoredBut(lay, old(view), view, k)
      ensures ok ==> forall j <- inodes :: |inodes[j].addrs| == NUM_DIRECT && SameFile(old(view), view, inodes[j])
      ensures ok ==> old(Tidy()) ==> Tidy()
      ensures ok <==> |ClearSet(lay, old(inodes[k].size), k) - old(logged)| <= old(rm)
      ensures !ok ==> old(rm) < 2
      ensures Traced() && start == old(start)
    {
      hide Traced, ClearSet, World, Stored, InUse, StoredBut, SameFile, Mapped, Bytes, Mine, Others, Content;
      ghost var view0, inodes0 := view, inodes;
      ok := Clear(k);
      if ok {
        ghost var view1, inodes1 := view, inodes;
        DropInode(lay, view, inodes, owner, reserved, k, old(owner));
        inodes := inodes[k := inodes[k].(kind := UNUSED)];
        assert inodes == (inodes1 - {k})[k := inodes[k]];
        ok := SyncInode(k);
        if ok {
          StoredButTrans(lay, view0, view1, view, k);
          TableHas(lay, view, inodes, owner, reserved, k);
          InUseChanged(lay, view0, inodes0, view, k, inodes[k]);
          DropInode(lay, view, inodes, owner, reserved, k, old(owner));
          WorldWhole(lay, view, inodes, owner, reserved, 0);
          OthersSame(view0, inodes0, view1, inodes1, view, inodes, k);
          inodes := inodes - {k};
          assert inodes == inodes0 - {k};
        }
      }
    }
  }

  lemma {:induction false} UsedBelow(lay: Layout, view: Disk, inodes: map<nat, Entry>, k: nat)
    requires InUse(lay, view, inodes)
    requires forall j: nat | 0 < j < k && j < lay.numInodes :: Stored(lay, view, j).kind != UNUSED
    ensures forall j: nat | 0 < j < k && j < lay.numInodes :: j in inodes
    ensures 0 < k < lay.numInodes && Stored(lay, view, k).kind == UNUSED ==> k !in inodes
  {
    hide Stored;
  }

  lemma {:induction false} SameContent(view: Disk, view': Disk, e: Entry)
    requires |e.addrs| == NUM_DIRECT && e.size <= MAX_BYTES && SameFile(view, view', e)
    ensures Content(view', e) == Content(view, e)
  {
    hide Bytes;
  }

  /** An inode without blocks can be left out, and put back with any kind. */
  lemma {:induction false} DropInode(lay: Layout, view: Disk, inodes: map<nat, Entry>, owner: map<nat, (nat, nat)>,
                                     reserved: set<nat>, k: nat, owner0: map<nat, (nat, nat)>)
    requires World(lay, view, inodes, owner, reserved, 0) && k in inodes && inodes[k].size == 0
    requires owner == owner0 - Mine(owner0, k)
    ensures World(lay, view, inodes - {k}, owner, reserved, 0)
    ensures inodes[k].indirect == 0 && |inodes[k].addrs| == NUM_DIRECT
    ensures forall i | 0 <= i < NUM_DIRECT :: inodes[k].addrs[i] == 0
    ensures World(lay, view, (inodes - {k})[k := inodes[k].(kind := UNUSED)], owner, reserved, k)
    ensures Mapped(view, inodes[k].(kind := UNUSED), BlocksFor(0))
  {
    hide World, Mapped, Mine, BlocksFor;
    Orphan(lay, view, inodes, owner, reserved, k);
    NoneMine(owner0, k);
    assert owner - {} == owner && reserved + {} == reserved;
    EmptyPlaces(lay, view, inodes, owner, reserved, k);
    TableHas(lay, view, inodes, owner, reserved, k);
    Reborn(lay, view, inodes - {k}, owner, reserved, k, inodes[k].(kind := UNUSED));
  }

  lemma {:induction false} NoneMine(owner: map<nat, (nat, nat)>, k: nat)
    ensures Mine(owner - Mine(owner, k), k) == {}
  {
  }

  lemma {:induction false} EmptyPlaces(lay: Layout, view: Disk, inodes: map<nat, Entry>, owner: map<nat, (nat, nat)>,
                                       reserved: set<nat>, k: nat)
    requires World(lay, view, inodes, owner, reserved, 0) && k in inodes && inodes[k].size == 0
    ensures inodes[k].indirect == 0 && |inodes[k].addrs| == NUM_DIRECT
    ensures forall i | 0 <= i < NUM_DIRECT :: inodes[k].addrs[i] == 0
  {
    hide Table, Owns, Marked;
    assert Mapped(view, inodes[k], 0);
    forall i | 0 <= i < NUM_DIRECT ensures inodes[k].addrs[i] == 0 {
      assert Addr(view, inodes[k], i) == inodes[k].addrs[i];
    }
  }

  lemma {:induction false} OthersSame(view: Disk, inodes: map<nat, Entry>, view1: Disk, inodes1: map<nat, Entry>,
                                      view2: Disk, inodes2: map<nat, Entry>, k: nat)
    requires Whole(inodes) && Others(view, inodes, view1, inodes1, k) && k in inodes2
    requires inodes2 == inodes1[k := inodes2[k]] && k in inodes1 && Whole(inodes2)
    requires forall j <- inodes2 :: SameFile(view1, view2, inodes2[j])
    ensures inodes2 - {k} == inodes - {k} && forall j <- inodes - {k} :: SameFile(view, view2, inodes[j])
  {
    hide SameFile;
    forall j <- inodes | j != k ensures inodes2[j] == inodes[j] && SameFile(view, view2, inodes[j]) {
      assert inodes2[j] == inodes1[j];
      SameFileTrans(view, view1, view2, inodes[j]);
    }
  }
}
