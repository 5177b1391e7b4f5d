/**
 Files as the blocks of the disk spell them out: which block holds which part of which
 inode, the bytes that makes, and the invariants that tie inodes, address tables and the
 allocation bitmap together.
 */
module Files {
  import opened Blocks
  import opened FsLayout

  /** The parts of the super block the inode layer uses; file blocks lie in [dataStart, SWAP_START). */
  datatype Layout = Layout(inodeStart: nat, bitmapStart: nat, dataStart: nat, numInodes: nat)

  predicate ValidLayout(lay: Layout)
  {
    lay.inodeStart + (lay.numInodes + 7) / 8 <= lay.bitmapStart < lay.dataStart <= SWAP_START
  }

  /** `to_block_no`. */
  function InodeBlock(lay: Layout, k: nat): nat
  {
    lay.inodeStart + k / INODES_PER_BLOCK
  }

  const TABLE: nat := 140   // the place of the address table itself

  /** The block at place `i` of a file: its data blocks in order, then its address table. */
  function Addr(view: Disk, e: Entry, i: nat): nat
    requires |e.addrs| == NUM_DIRECT && i <= TABLE
  {
    if i < NUM_DIRECT then e.addrs[i]
    else if i == TABLE then e.indirect
    else if e.indirect == 0 then 0
    else WordAt(At(view, e.indirect), 4, i - NUM_DIRECT)
  }

  /** Byte `p` of a file, reading absent blocks as zeros. */
  function ByteAt(view: Disk, e: Entry, p: nat): byte
    requires |e.addrs| == NUM_DIRECT && p < MAX_BYTES
  {
    var a := Addr(view, e, p / 512);
    if a == 0 then 0 else At(view, a)[p % 512]
  }

  function Bytes(view: Disk, e: Entry): (s: seq<byte>)
    requires |e.addrs| == NUM_DIRECT
    ensures |s| == MAX_BYTES && forall p :: 0 <= p < MAX_BYTES ==> s[p] == ByteAt(view, e, p)
  {
    seq(MAX_BYTES, p requires 0 <= p < MAX_BYTES => ByteAt(view, e, p))
  }

  /** What a file is to its readers. */
  function Content(view: Disk, e: Entry): (s: seq<byte>)
    requires |e.addrs| == NUM_DIRECT && e.size <= MAX_BYTES
    ensures |s| == e.size
  {
    Bytes(view, e)[..e.size]
  }

  ghost predicate Whole(inodes: map<nat, Entry>)
  {
    forall k <- inodes :: |inodes[k].addrs| == NUM_DIRECT
  }

  // Invariants. Each names only what it depends on; `busy` is the inode being worked on, or 0.

  ghost predicate Entries(lay: Layout, inodes: map<nat, Entry>)
  {
    forall k <- inodes :: 0 < k < lay.numInodes && Storable(inodes[k]) && inodes[k].size <= MAX_BYTES
  }

  /** The inodes on disk are those in memory. */
  ghost predicate Table(lay: Layout, view: Disk, inodes: map<nat, Entry>, busy: nat)
  {
    forall k <- inodes :: k != busy ==> EntryAt(At(view, InodeBlock(lay, k)), k % INODES_PER_BLOCK) == inodes[k]
  }

  /** Each block belongs to at most one place of one inode. */
  ghost predicate Owns(view: Disk, inodes: map<nat, Entry>, owner: map<nat, (nat, nat)>)
    requires Whole(inodes)
  {
    && (forall k <- inodes, i | 0 <= i <= TABLE ::
          Addr(view, inodes[k], i) != 0 ==>
              Addr(view, inodes[k], i) in owner && owner[Addr(view, inodes[k], i)] == (k, i))
    && (forall b <- owner ::
        b != 0 && owner[b].0 in inodes && owner[b].1 <= TABLE && Addr(view, inodes[owner[b].0], owner[b].1) == b)
  }

  /** The bitmap marks the owned blocks and the reserved ones, which include all metadata. */
  ghost predicate Marked(lay: Layout, view: Disk, owned: set<nat>, reserved: set<nat>)
  {
    && (forall j | 0 <= j < SWAP_START :: BitAt(At(view, lay.bitmapStart), j) <==> j in reserved || j in owned)
    && (forall j | 0 <= j < lay.dataStart :: j in reserved)
    && (forall b <- owned :: b < SWAP_START && b !in reserved)
  }

  function BlocksFor(size: nat): nat
  {
    (size + 511) / 512
  }

  /** Exactly the first `n` places hold a block. */
  ghost predicate Filled(view: Disk, e: Entry, n: nat)
    requires |e.addrs| == NUM_DIRECT
  {
    forall i | 0 <= i < MAX_BLOCKS :: Addr(view, e, i) != 0 <==> i < n
  }

  /** Also, there is a table if they need one. */
  ghost predicate Mapped(view: Disk, e: Entry, n: nat)
    requires |e.addrs| == NUM_DIRECT
  {
    n <= MAX_BLOCKS && (e.indirect != 0 <==> n > NUM_DIRECT) && Filled(view, e, n)
  }

  ghost predicate NoHoles(view: Disk, inodes: map<nat, Entry>, busy: nat)
    requires Whole(inodes)
  {
    forall k <- inodes :: k != busy ==> Mapped(view, inodes[k], BlocksFor(inodes[k].size))
  }

  ghost predicate World(lay: Layout, view: Disk, inodes: map<nat, Entry>, owner: map<nat, (nat, nat)>,
                        reserved: set<nat>, busy: nat)
  {
    && ValidLayout(lay) && Entries(lay, inodes) && Table(lay, view, inodes, busy)
    && Owns(view, inodes, owner) && Marked(lay, view, owner.Keys, reserved) && NoHoles(view, inodes, busy)
  }

  // The same in terms of bytes on disk.

  /** Byte `p` of a file: in the direct block `p / 512`, or in the one that the table lists. */
  lemma {:induction false} ContentLayout(view: Disk, e: Entry, p: nat)
    requires |e.addrs| == NUM_DIRECT && p < e.size <= MAX_BYTES && Mapped(view, e, BlocksFor(e.size))
    ensures e.indirect != 0 || p < 6144
    ensures var b := if p < 6144 then e.addrs[p / 512] else Four(At(view, e.indirect), 4 * (p / 512 - 12));
            b != 0 && Content(view, e)[p] == At(view, b)[p % 512]
  {
    hide Decode, Four, Two;
    var i := p / 512;
    assert i < BlocksFor(e.size) && Addr(view, e, i) != 0;
    if i >= NUM_DIRECT {
      DecodeFour(At(view, e.indirect), 4 * (i - 12));
    }
  }

  /** Inode `k` is the entry `k % 8` of block `k / 8` of the inode area. */
  lemma {:induction false} InodeLayout(lay: Layout, view: Disk, inodes: map<nat, Entry>, k: nat, i: nat)
    requires Table(lay, view, inodes, 0) && k in inodes && k > 0 && i < NUM_DIRECT
    ensures var e, b, at := inodes[k], At(view, lay.inodeStart + k / 8), 64 * (k % 8);
            && |e.addrs| == NUM_DIRECT && e.kind == Two(b, at) && e.major == Two(b, at + 2) && e.minor == Two(b, at + 4)
            && e.links == Two(b, at + 6) && e.size == Four(b, at + 8) && e.addrs[i] == Four(b, at + 12 + 4 * i)
            && e.indirect == Four(b, at + 60)
  {
    hide Two, Four, EntryAt;
    EntryLayout(At(view, lay.inodeStart + k / 8), k % 8, i);
  }

  ghost predicate SameAddrs(view: Disk, view': Disk, e: Entry)
    requires |e.addrs| == NUM_DIRECT
  {
    forall i | 0 <= i <= TABLE :: Addr(view', e, i) == Addr(view, e, i)
  }

  /** Nothing changes for the file of `e`. */
  ghost predicate SameFile(view: Disk, view': Disk, e: Entry)
    requires |e.addrs| == NUM_DIRECT
  {
    SameAddrs(view, view', e) && Bytes(view', e) == Bytes(view, e)
  }

  /** Nothing changes below the bitmap, in particular no stored inode. */
  ghost predicate SameMeta(lay: Layout, view: Disk, view': Disk)
  {
    forall c: nat | c < lay.bitmapStart :: At(view', c) == At(view, c)
  }

  ghost predicate Others(view: Disk, inodes: map<nat, Entry>, view': Disk, inodes': map<nat, Entry>, k: nat)
    requires Whole(inodes)
  {
    && inodes'.Keys == inodes.Keys
    && forall j <- inodes :: j != k ==> inodes'[j] == inodes[j] && SameFile(view, view', inodes[j])
  }

  // Framing.

  lemma {:induction false} SameTable(view: Disk, view': Disk, e: Entry)
    requires |e.addrs| == NUM_DIRECT && (e.indirect == 0 || At(view', e.indirect) == At(view, e.indirect))
    ensures SameAddrs(view, view', e)
  {
    hide WordAt;
  }

  lemma {:induction false} SameBlocks(view: Disk, view': Disk, e: Entry)
    requires |e.addrs| == NUM_DIRECT
    requires forall i | 0 <= i <= TABLE :: Addr(view, e, i) != 0 ==>
                                             At(view', Addr(view, e, i)) == At(view, Addr(view, e, i))
    ensures SameAddrs(view, view', e) && SameFile(view, view', e)
  {
    hide WordAt;
    assert Addr(view, e, TABLE) == e.indirect;
    SameTable(view, view', e);
    hide Addr;
    assert forall p | 0 <= p < MAX_BYTES :: ByteAt(view', e, p) == ByteAt(view, e, p);
  }

  /** Writing a block changes only the file that owns it. */
  lemma {:induction false} OthersWrite(view: Disk, inodes: map<nat, Entry>, owner: map<nat, (nat, nat)>, b: nat,
                                       d: Block, k: nat)
    requires Whole(inodes) && Owns(view, inodes, owner) && k in inodes && (b in owner ==> owner[b].0 != k)
    ensures SameAddrs(view, view[b := d], inodes[k]) && SameFile(view, view[b := d], inodes[k])
  {
    hide Addr, SameFile, SameAddrs;
    SameBlocks(view, view[b := d], inodes[k]);
  }

  /** Writing a block that is nobody's address table moves no block. */
  lemma {:induction false} AddrsWrite(view: Disk, inodes: map<nat, Entry>, owner: map<nat, (nat, nat)>, b: nat,
                                      d: Block)
    requires Whole(inodes) && Owns(view, inodes, owner) && (b in owner ==> owner[b].1 != TABLE)
    ensures Owns(view[b := d], inodes, owner) && forall k <- inodes :: SameAddrs(view, view[b := d], inodes[k])
  {
    var view' := view[b := d];
    forall k <- inodes ensures SameAddrs(view, view', inodes[k]) {
      hide SameAddrs;
      assert Addr(view, inodes[k], TABLE) == inodes[k].indirect;
      SameTable(view, view', inodes[k]);
    }
    hide Addr;
  }

  lemma {:induction false} SameMapped(view: Disk, view': Disk, e: Entry, n: nat)
    requires |e.addrs| == NUM_DIRECT && Mapped(view, e, n) && SameAddrs(view, view', e)
    ensures Mapped(view', e, n)
  {
    hide Addr;
  }

  /** Writing a data block overwrites its stretch of the file. */
  lemma {:induction false} DataWrite(view: Disk, e: Entry, i: nat, d: Block)
    requires |e.addrs| == NUM_DIRECT && i < MAX_BLOCKS && Addr(view, e, i) != 0
    requires forall j | 0 <= j <= TABLE :: j != i ==> Addr(view, e, j) != Addr(view, e, i)
    ensures Bytes(view[Addr(view, e, i) := d], e) == Spliced(Bytes(view, e), 512 * i, d)
  {
    var b := Addr(view, e, i);
    var view' := view[b := d];
    assert Addr(view, e, TABLE) == e.indirect;
    SameTable(view, view', e);
    hide Addr;
    var r := Spliced(Bytes(view, e), 512 * i, d);
    forall p | 0 <= p < MAX_BYTES ensures Bytes(view', e)[p] == r[p] {
      if p / 512 == i {
        assert p == 512 * i + p % 512;
      } else {
        assert p < 512 * i || p >= 512 * i + 512;
      }
    }
  }

  /** Overwriting twice. */
  lemma {:induction false} SplicedInner(c: seq<byte>, lo: nat, n: nat, at: nat, s: seq<byte>)
    requires lo + n <= |c| && at + |s| <= n
    ensures Spliced(c, lo, Spliced(c[lo..lo + n], at, s)) == Spliced(c, lo + at, s)
  {
    var l, r := Spliced(c, lo, Spliced(c[lo..lo + n], at, s)), Spliced(c, lo + at, s);
    hide Spliced;
    assert forall i | 0 <= i < |c| :: l[i] == r[i];
  }

  lemma {:induction false} SplicedMore(c: seq<byte>, at: nat, s: seq<byte>, t: seq<byte>)
    requires at + |s| + |t| <= |c|
    ensures Spliced(Spliced(c, at, s), at + |s|, t) == Spliced(c, at, s + t)
  {
    var l, r := Spliced(Spliced(c, at, s), at + |s|, t), Spliced(c, at, s + t);
    hide Spliced;
    assert forall i | 0 <= i < |c| :: l[i] == r[i];
  }

  lemma {:induction false} BlockOfFile(view: Disk, e: Entry, i: nat)
    requires |e.addrs| == NUM_DIRECT && i < MAX_BLOCKS && Addr(view, e, i) != 0
    ensures Bytes(view, e)[512 * i..512 * i + 512] == At(view, Addr(view, e, i))
  {
    hide Addr;
    var c := Bytes(view, e);
    forall p | 512 * i <= p < 512 * i + 512 ensures c[p] == At(view, Addr(view, e, i))[p - 512 * i] {
      assert p / 512 == i && p % 512 == p - 512 * i;
    }
  }

  // Giving a block to a file.

  /** A zeroed block put at an empty place changes no byte. */
  lemma {:induction false} ZeroFill(view: Disk, e: Entry, view': Disk, e': Entry, i: nat)
    requires |e.addrs| == |e'.addrs| == NUM_DIRECT && i < MAX_BLOCKS && Addr(view, e, i) == 0
    requires forall j | 0 <= j < MAX_BLOCKS :: j != i ==> Addr(view', e', j) == Addr(view, e, j)
    requires forall j | 0 <= j < MAX_BLOCKS :: j != i && Addr(view, e, j) != 0 ==>
                                                 At(view', Addr(view, e, j)) == At(view, Addr(view, e, j))
    requires At(view', Addr(view', e', i)) == Zeros(512)
    ensures Bytes(view', e') == Bytes(view, e)
  {
    hide Addr;
    forall p | 0 <= p < MAX_BYTES ensures ByteAt(view', e', p) == ByteAt(view, e, p) {
      assert p / 512 < MAX_BLOCKS;
    }
  }

  /** A fresh block at a direct place. */
  lemma {:induction false} GiveDirect(view: Disk, inodes: map<nat, Entry>, owner: map<nat, (nat, nat)>, k: nat, i: nat,
                                      b: nat)
    requires Whole(inodes) && Owns(view, inodes, owner) && k in inodes && i < NUM_DIRECT && Mapped(view, inodes[k], i)
    requires b !in owner && b != 0 && At(view, b) == Zeros(512)
    ensures var e' := inodes[k].(addrs := inodes[k].addrs[i := b]);
            && Owns(view, inodes[k := e'], owner[b := (k, i)]) && Mapped(view, e', i + 1)
              && Bytes(view, e') == Bytes(view, inodes[k])
  {
    hide WordAt;
    var e := inodes[k];
    var e' := e.(addrs := e.addrs[i := b]);
    assert forall j | 0 <= j <= TABLE :: Addr(view, e', j) == if j == i then b else Addr(view, e, j);
    hide Addr;
    ZeroFill(view, e, view, e', i);
    OwnsOneMore(view, inodes, owner, view, inodes[k := e'], k, i, b);
  }

  /** One place gains a fresh block, everything else keeps its block. */
  lemma {:induction false} OwnsOneMore(view: Disk, inodes: map<nat, Entry>, owner: map<nat, (nat, nat)>,
                                       view': Disk, inodes': map<nat, Entry>, k: nat, i: nat, b: nat)
    requires Whole(inodes) && Owns(view, inodes, owner) && Whole(inodes') && inodes'.Keys == inodes.Keys && k in inodes
             && i <= TABLE
    requires Addr(view, inodes[k], i) == 0 && Addr(view', inodes'[k], i) == b && b !in owner && b != 0
    requires forall j <- inodes, q | 0 <= q <= TABLE ::
               (j, q) != (k, i) ==> Addr(view', inodes'[j], q) == Addr(view, inodes[j], q)
    ensures Owns(view', inodes', owner[b := (k, i)])
  {
    hide Addr;
  }

  /** A fresh block as address table. */
  lemma {:induction false} GiveTable(view: Disk, inodes: map<nat, Entry>, owner: map<nat, (nat, nat)>, k: nat, b: nat)
    requires Whole(inodes) && Owns(view, inodes, owner) && k in inodes && Mapped(view, inodes[k], NUM_DIRECT)
    requires b !in owner && b != 0 && At(view, b) == Zeros(512)
    ensures var e' := inodes[k].(indirect := b);
            && Owns(view, inodes[k := e'], owner[b := (k, TABLE)]) && Bytes(view, e') == Bytes(view, inodes[k])
            && forall j | 0 <= j < MAX_BLOCKS :: Addr(view, e', j) == Addr(view, inodes[k], j)
  {
    hide WordAt;
    var e := inodes[k];
    var e' := e.(indirect := b);
    forall j | 0 <= j < MAX_BLOCKS ensures Addr(view, e', j) == Addr(view, e, j) {
      if j >= NUM_DIRECT {
        WordZero(4, j - NUM_DIRECT);
      }
    }
    OwnsOneMore(view, inodes, owner, view, inodes[k := e'], k, TABLE, b);
    hide Addr;
    assert forall p | 0 <= p < MAX_BYTES :: ByteAt(view, e', p) == ByteAt(view, e, p);
  }

  /** Block `b` entered into the address table for place `i`. */
  function Listed(view: Disk, e: Entry, i: nat, b: nat): Disk
    requires NUM_DIRECT <= i < MAX_BLOCKS
  {
    view[e.indirect := WithWord(At(view, e.indirect), 4, i - NUM_DIRECT, b)]
  }

  /** A fresh block listed in the address table. */
  lemma {:induction false} GiveListed(view: Disk, inodes: map<nat, Entry>, owner: map<nat, (nat, nat)>, k: nat, i: nat,
                                      b: nat)
    requires Whole(inodes) && Owns(view, inodes, owner) && k in inodes && NUM_DIRECT <= i < MAX_BLOCKS
             && inodes[k].indirect != 0
    requires Filled(view, inodes[k], i)
    requires b !in owner && 0 < b < 0x1_0000_0000 && At(view, b) == Zeros(512)
    ensures var e := inodes[k]; var view' := Listed(view, e, i, b);
            && Owns(view', inodes, owner[b := (k, i)]) && Mapped(view', e, i + 1) && Bytes(view', e) == Bytes(view, e)
            && forall j <- inodes :: j != k ==> SameAddrs(view, view', inodes[j]) && SameFile(view, view', inodes[j])
  {
    var e := inodes[k];
    var t := WithWord(At(view, e.indirect), 4, i - NUM_DIRECT, b);
    var view' := view[e.indirect := t];
    assert Addr(view, e, TABLE) == e.indirect && owner[e.indirect] == (k, TABLE);
    ListedAddrs(view, e, i, b);
    hide Addr, WithWord;
    forall j <- inodes | j != k ensures SameAddrs(view, view', inodes[j]) && SameFile(view, view', inodes[j]) {
      OthersWrite(view, inodes, owner, e.indirect, t, j);
    }
    forall j | 0 <= j < MAX_BLOCKS && j != i && Addr(view, e, j) != 0
      ensures At(view', Addr(view, e, j)) == At(view, Addr(view, e, j))
    {
      assert owner[Addr(view, e, j)] == (k, j);
    }
    ZeroFill(view, e, view', e, i);
    OwnsOneMore(view, inodes, owner, view', inodes, k, i, b);
  }

  lemma {:induction false} AtWritten(view: Disk, b: nat, d: Block)
    ensures At(view[b := d], b) == d
  {
  }

  lemma {:induction false} PowerOfFour()
    ensures Power(4) == 0x1_0000_0000
  {
    assert Power(2) == 0x1_0000;
  }

  lemma {:induction false} ListedAddrs(view: Disk, e: Entry, i: nat, b: nat)
    requires |e.addrs| == NUM_DIRECT && NUM_DIRECT <= i < MAX_BLOCKS && e.indirect != 0 && b < 0x1_0000_0000
    ensures var view' := Listed(view, e, i, b);
            forall j | 0 <= j <= TABLE :: Addr(view', e, j) == if j == i then b else Addr(view, e, j)
  {
    hide WordAt, WithWord, Power, At;
    PowerOfFour();
    var view' := Listed(view, e, i, b);
    var table := WithWord(At(view, e.indirect), 4, i - NUM_DIRECT, b);
    assert At(view', e.indirect) == table by { AtWritten(view, e.indirect, table); }
    forall j | 0 <= j <= TABLE ensures Addr(view', e, j) == if j == i then b else Addr(view, e, j) {
      if NUM_DIRECT <= j < TABLE {
        WordLaw(At(view, e.indirect), 4, i - NUM_DIRECT, b, j - NUM_DIRECT);
      }
    }
  }

  // The bitmap.

  function WithMark(lay: Layout, view: Disk, b: nat, v: bool): Disk
    requires b < 4096
  {
    view[lay.bitmapStart := WithBitAt(At(view, lay.bitmapStart), b, v)]
  }

  /** The blocks `cache_alloc` may still hand out. */
  ghost function FreeBlocks(lay: Layout, view: Disk): set<nat>
  {
    set j | 0 <= j < SWAP_START && !BitAt(At(view, lay.bitmapStart), j)
  }

  lemma {:induction false} MarkOne(lay: Layout, view: Disk, owned: set<nat>, reserved: set<nat>, b: nat)
    requires Marked(lay, view, owned, reserved) && b < SWAP_START && !BitAt(At(view, lay.bitmapStart), b)
    ensures b !in owned && b !in reserved && Marked(lay, WithMark(lay, view, b, true), owned, reserved + {b})
    ensures FreeBlocks(lay, WithMark(lay, view, b, true)) == FreeBlocks(lay, view) - {b} && b in FreeBlocks(lay, view)
  {
    hide BitAt, WithBitAt;
    forall j | 0 <= j < SWAP_START {
      BitAtLaw(At(view, lay.bitmapStart), b, true, j);
    }
  }

  lemma {:induction false} UnmarkOne(lay: Layout, view: Disk, owned: set<nat>, reserved: set<nat>, b: nat)
    requires Marked(lay, view, owned, reserved) && lay.dataStart <= b < SWAP_START && b !in owned
    ensures Marked(lay, WithMark(lay, view, b, false), owned, reserved - {b})
  {
    hide BitAt, WithBitAt;
    forall j | 0 <= j < SWAP_START {
      BitAtLaw(At(view, lay.bitmapStart), b, false, j);
    }
  }

  lemma {:induction false} Adopt(lay: Layout, view: Disk, owned: set<nat>, reserved: set<nat>, b: nat)
    requires Marked(lay, view, owned, reserved + {b}) && lay.dataStart <= b < SWAP_START && b !in reserved
    ensures Marked(lay, view, owned + {b}, reserved)
  {
    hide BitAt;
  }

  // The inode table.

  lemma {:induction false} InodeBlockBounds(lay: Layout, k: nat)
    requires ValidLayout(lay) && k < lay.numInodes
    ensures lay.inodeStart <= InodeBlock(lay, k) < lay.bitmapStart
  {
  }

  lemma {:induction false} StoreInode(lay: Layout, view: Disk, inodes: map<nat, Entry>, k: nat)
    requires Entries(lay, inodes) && Table(lay, view, inodes, k) && k in inodes
    ensures var b := InodeBlock(lay, k); Table(lay, view[b := WithEntry(At(view, b), k % INODES_PER_BLOCK, inodes[k])],
            inodes, 0)
  {
    hide EntryAt, WithEntry;
    var b := InodeBlock(lay, k);
    var view' := view[b := WithEntry(At(view, b), k % INODES_PER_BLOCK, inodes[k])];
    forall j <- inodes ensures EntryAt(At(view', InodeBlock(lay, j)), j % INODES_PER_BLOCK) == inodes[j] {
      EntryLaw(At(view, b), k % INODES_PER_BLOCK, inodes[k], j % INODES_PER_BLOCK);
      if j / 8 == k / 8 && j % 8 == k % 8 {
        assert j == k;
      }
    }
  }

  // Whole steps.

  /** Writing a block nobody owns, beyond the inode table, changes nothing for any file. */
  lemma {:induction false} PlainWrite(lay: Layout, view: Disk, inodes: map<nat, Entry>, owner: map<nat, (nat, nat)>,
                                      reserved: set<nat>, busy: nat,
                                      b: nat, d: Block, reserved': set<nat>)
    requires World(lay, view, inodes, owner, reserved, busy) && Marked(lay, view[b := d], owner.Keys, reserved')
             && b !in owner && b >= lay.bitmapStart
    ensures World(lay, view[b := d], inodes, owner, reserved', busy)
            && forall k <- inodes :: SameFile(view, view[b := d], inodes[k])
  {
    hide EntryAt, BitAt, Mapped, SameFile, SameAddrs, Owns;
    var view' := view[b := d];
    AddrsWrite(view, inodes, owner, b, d);
    forall k <- inodes ensures SameFile(view, view', inodes[k])
      && (k != busy ==> Mapped(view', inodes[k], BlocksFor(inodes[k].size)))
    {
      OthersWrite(view, inodes, owner, b, d, k);
      if k != busy {
        SameMapped(view, view', inodes[k], BlocksFor(inodes[k].size));
      }
    }
    forall k <- inodes ensures At(view', InodeBlock(lay, k)) == At(view, InodeBlock(lay, k)) {
      InodeBlockBounds(lay, k);
    }
  }

  lemma {:induction false} SameFileTrans(view: Disk, view1: Disk, view2: Disk, e: Entry)
    requires |e.addrs| == NUM_DIRECT && SameFile(view, view1, e) && SameFile(view1, view2, e)
    ensures SameFile(view, view2, e)
  {
    hide Addr, Bytes;
    forall i | 0 <= i <= TABLE ensures Addr(view2, e, i) == Addr(view, e, i) {
      assert Addr(view1, e, i) == Addr(view, e, i);
    }
  }

  /** `cache_alloc`: a zeroed block, marked, that belongs to nobody yet. */
  lemma {:induction false} AllocKeeps(lay: Layout, view: Disk, inodes: map<nat, Entry>, owner: map<nat, (nat, nat)>,
                                      reserved: set<nat>, busy: nat, b: nat)
    requires World(lay, view, inodes, owner, reserved, busy) && b < SWAP_START && !BitAt(At(view, lay.bitmapStart), b)
    ensures var view' := WithMark(lay, view, b, true)[b := Zeros(512)];
            && World(lay, view', inodes, owner, reserved + {b}, busy)
              && (forall k <- inodes :: SameFile(view, view', inodes[k]))
            && FreeBlocks(lay, view') == FreeBlocks(lay, view) - {b} && b in FreeBlocks(lay, view)
    ensures b >= lay.dataStart > lay.bitmapStart && b !in owner && b !in reserved
  {
    hide BitAt, WithBitAt, Table, Owns, NoHoles, SameFile;
    MarkOne(lay, view, owner.Keys, reserved, b);
    var view1 := WithMark(lay, view, b, true);
    PlainWrite(lay, view, inodes, owner, reserved, busy, lay.bitmapStart,
      WithBitAt(At(view, lay.bitmapStart), b, true), reserved + {b});
    PlainWrite(lay, view1, inodes, owner, reserved + {b}, busy, b, Zeros(512), reserved + {b});
    forall k <- inodes ensures SameFile(view, view1[b := Zeros(512)], inodes[k]) {
      SameFileTrans(view, view1, view1[b := Zeros(512)], inodes[k]);
    }
  }

  ghost predicate Given(view: Disk, inodes: map<nat, Entry>, view': Disk, inodes': map<nat, Entry>, k: nat)
  {
    && Whole(inodes) && Whole(inodes') && k in inodes && k in inodes' && Others(view, inodes, view', inodes', k)
    && inodes'[k] == inodes[k].(addrs := inodes'[k].addrs, indirect := inodes'[k].indirect)
    && Bytes(view', inodes'[k]) == Bytes(view, inodes[k])
  }

  lemma {:induction false} StorablePut(e: Entry, i: nat, b: nat)
    requires Storable(e) && i < NUM_DIRECT && b < 0x1_0000_0000
    ensures Storable(e.(addrs := e.addrs[i := b]))
  {
    var addrs' := e.addrs[i := b];
    forall a <- addrs' ensures a < 0x1_0000_0000 {
      var q :| 0 <= q < NUM_DIRECT && addrs'[q] == a;
      assert e.addrs[q] in e.addrs;
    }
  }

  lemma {:induction false} DirectGiven(lay: Layout, view: Disk, inodes: map<nat, Entry>, owner: map<nat, (nat, nat)>,
                                       reserved: set<nat>, k: nat, i: nat, b: nat)
    requires World(lay, view, inodes, owner, reserved + {b}, k) && k in inodes && i < NUM_DIRECT
             && Mapped(view, inodes[k], i)
    requires b !in owner && b !in reserved && lay.dataStart <= b < SWAP_START && At(view, b) == Zeros(512)
    ensures var e' := inodes[k].(addrs := inodes[k].addrs[i := b]);
            && World(lay, view, inodes[k := e'], owner[b := (k, i)], reserved, k) && Mapped(view, e', i + 1)
            && Given(view, inodes, view, inodes[k := e'], k)
  {
    hide EntryAt, BitAt, Mapped, Owns, Marked, Addr, Bytes;
    StorablePut(inodes[k], i, b);
    GiveDirect(view, inodes, owner, k, i, b);
    Adopt(lay, view, owner.Keys, reserved, b);
    assert owner[b := (k, i)].Keys == owner.Keys + {b};
  }

  lemma {:induction false} TableGiven(lay: Layout, view: Disk, inodes: map<nat, Entry>, owner: map<nat, (nat, nat)>,
                                      reserved: set<nat>, k: nat, b: nat)
    requires World(lay, view, inodes, owner, reserved + {b}, k) && k in inodes && Mapped(view, inodes[k], NUM_DIRECT)
    requires b !in owner && b !in reserved && lay.dataStart <= b < SWAP_START && At(view, b) == Zeros(512)
    ensures var e' := inodes[k].(indirect := b);
            && World(lay, view, inodes[k := e'], owner[b := (k, TABLE)], reserved, k)
            && Given(view, inodes, view, inodes[k := e'], k)
            && forall j | 0 <= j < MAX_BLOCKS :: Addr(view, e', j) == Addr(view, inodes[k], j)
  {
    hide EntryAt, BitAt, Mapped, Owns, Marked, Addr, Bytes;
    GiveTable(view, inodes, owner, k, b);
    Adopt(lay, view, owner.Keys, reserved, b);
    assert owner[b := (k, TABLE)].Keys == owner.Keys + {b};
  }

  lemma {:induction false} ListedGiven(lay: Layout, view: Disk, inodes: map<nat, Entry>, owner: map<nat, (nat, nat)>,
                                       reserved: set<nat>, k: nat, i: nat, b: nat)
    requires World(lay, view, inodes, owner, reserved + {b}, k) && k in inodes && NUM_DIRECT <= i < MAX_BLOCKS
             && inodes[k].indirect != 0
    requires Filled(view, inodes[k], i)
    requires b !in owner && b !in reserved && lay.dataStart <= b < SWAP_START && At(view, b) == Zeros(512)
    ensures var e := inodes[k]; var view' := Listed(view, e, i, b);
            && World(lay, view', inodes, owner[b := (k, i)], reserved, k) && Mapped(view', e, i + 1)
            && Given(view, inodes, view', inodes, k)
  {
    hide EntryAt, Mapped, Owns, Bytes, Addr, SameFile, SameAddrs, WithWord;
    var e := inodes[k];
    var view' := Listed(view, e, i, b);
    TableOwned(lay, view, inodes, owner, reserved + {b}, k);
    GiveListed(view, inodes, owner, k, i, b);
    ElsewhereKept(lay, view, inodes, owner.Keys, reserved + {b}, k, e.indirect, At(view', e.indirect));
    Adopt(lay, view', owner.Keys, reserved, b);
    assert owner[b := (k, i)].Keys == owner.Keys + {b};
    forall j <- inodes | j != k ensures Mapped(view', inodes[j], BlocksFor(inodes[j].size)) {
      SameMapped(view, view', inodes[j], BlocksFor(inodes[j].size));
    }
  }

  lemma {:induction false} TableOwned(lay: Layout, view: Disk, inodes: map<nat, Entry>, owner: map<nat, (nat, nat)>,
                                      reserved: set<nat>, k: nat)
    requires World(lay, view, inodes, owner, reserved, k) && k in inodes && inodes[k].indirect != 0
    ensures inodes[k].indirect in owner && owner[inodes[k].indirect] == (k, TABLE)
            && lay.inodeStart <= lay.bitmapStart < lay.dataStart <= inodes[k].indirect < SWAP_START
  {
    hide EntryAt, BitAt, NoHoles, WordAt;
    assert Addr(view, inodes[k], TABLE) == inodes[k].indirect;
  }

  /** A write to a file block leaves the inode table and the bitmap alone. */
  lemma {:induction false} ElsewhereKept(lay: Layout, view: Disk, inodes: map<nat, Entry>, owned: set<nat>,
                                         reserved: set<nat>, busy: nat, b: nat, d: Block)
    requires ValidLayout(lay) && Entries(lay, inodes) && b >= lay.dataStart && Table(lay, view, inodes, busy)
             && Marked(lay, view, owned, reserved)
    ensures Table(lay, view[b := d], inodes, busy) && Marked(lay, view[b := d], owned, reserved)
            && FreeBlocks(lay, view[b := d]) == FreeBlocks(lay, view)
  {
    hide EntryAt, BitAt, Storable;
    forall k <- inodes ensures At(view[b := d], InodeBlock(lay, k)) == At(view, InodeBlock(lay, k)) {
      InodeBlockBounds(lay, k);
    }
  }

  lemma {:induction false} GivenAfter(view: Disk, inodes: map<nat, Entry>, view': Disk,
                                      inodes': map<nat, Entry>, k: nat)
    requires Whole(inodes) && (forall j <- inodes :: SameFile(view, view', inodes[j]))
             && Given(view', inodes, view', inodes', k)
    ensures Given(view, inodes, view', inodes', k)
  {
    hide Addr, Bytes;
  }

  lemma {:induction false} GivenBefore(view: Disk, view1: Disk, view2: Disk, inodes: map<nat, Entry>,
                                       k: nat)
    requires Whole(inodes) && (forall j <- inodes :: SameFile(view, view1, inodes[j]))
             && Given(view1, inodes, view2, inodes, k)
    ensures Given(view, inodes, view2, inodes, k)
  {
    hide SameFile;
    forall j <- inodes | j != k ensures SameFile(view, view2, inodes[j]) {
      SameFileTrans(view, view1, view2, inodes[j]);
    }
    assert Bytes(view1, inodes[k]) == Bytes(view, inodes[k]) by { SameFileBytes(view, view1, inodes[k]); }
  }

  lemma {:induction false} SameFileBytes(view: Disk, view': Disk, e: Entry)
    requires |e.addrs| == NUM_DIRECT && SameFile(view, view', e)
    ensures Bytes(view', e) == Bytes(view, e)
  {
  }

  lemma {:induction false} FilledSame(view: Disk, view': Disk, e: Entry, n: nat)
    requires |e.addrs| == NUM_DIRECT && Filled(view, e, n) && SameFile(view, view', e)
    ensures Filled(view', e, n)
  {
    hide Addr, Bytes;
  }

  lemma {:induction false} MappedFilled(view: Disk, e: Entry, e': Entry, n: nat)
    requires |e.addrs| == |e'.addrs| == NUM_DIRECT && Mapped(view, e, n)
    requires forall j | 0 <= j < MAX_BLOCKS :: Addr(view, e', j) == Addr(view, e, j)
    ensures Filled(view, e', n)
  {
    hide Addr;
  }

  lemma {:induction false} ElsewhereFree(lay: Layout, view: Disk, b: nat, d: Block)
    requires b != lay.bitmapStart
    ensures FreeBlocks(lay, view[b := d]) == FreeBlocks(lay, view)
  {
    hide BitAt;
  }

  // Reading and overwriting.

  ghost predicate Overwrote(view: Disk, view': Disk, inodes: map<nat, Entry>, k: nat, at: nat,
                            s: seq<byte>)
  {
    && Whole(inodes) && k in inodes && at + |s| <= MAX_BYTES
      && Bytes(view', inodes[k]) == Spliced(Bytes(view, inodes[k]), at, s)
    && forall j <- inodes :: j != k ==> SameFile(view, view', inodes[j])
  }

  /** The block at a mapped place belongs there and nowhere else. */
  lemma {:induction false} OwnedAt(view: Disk, inodes: map<nat, Entry>, owner: map<nat, (nat, nat)>, k: nat, i: nat,
                                   n: nat)
    requires Whole(inodes) && Owns(view, inodes, owner) && k in inodes && i < n <= MAX_BLOCKS
             && Mapped(view, inodes[k], n)
    ensures var b := Addr(view, inodes[k], i);
            && b != 0 && b in owner && owner[b] == (k, i) && forall j | 0 <= j <= TABLE ::
                  j != i ==> Addr(view, inodes[k], j) != b
  {
    hide Addr;
  }

  /** Overwriting part of a data block overwrites that part of its file and nothing else. */
  lemma {:induction false} OverwriteBlock(lay: Layout, view: Disk, inodes: map<nat, Entry>,
                                          owner: map<nat, (nat, nat)>, reserved: set<nat>, k: nat,
                                          i: nat, at: nat, s: seq<byte>, n: nat)
    requires World(lay, view, inodes, owner, reserved, k) && k in inodes && i < n <= MAX_BLOCKS
             && Mapped(view, inodes[k], n) && at + |s| <= 512
    ensures var b := Addr(view, inodes[k], i); var view' := view[b := Spliced(At(view, b), at, s)];
            && World(lay, view', inodes, owner, reserved, k) && Mapped(view', inodes[k], n)
              && SameAddrs(view, view', inodes[k])
            && Overwrote(view, view', inodes, k, 512 * i + at, s)
              && FreeBlocks(lay, view') == FreeBlocks(lay, view)
            && lay.inodeStart <= lay.bitmapStart < lay.dataStart <= b < SWAP_START
  {
    hide EntryAt, BitAt, Bytes, SameFile, SameAddrs, Spliced, Mapped, Owns, Addr;
    var e := inodes[k];
    OwnedAt(view, inodes, owner, k, i, n);
    var b := Addr(view, e, i);
    var d := Spliced(At(view, b), at, s);
    var view' := view[b := d];
    ElsewhereKept(lay, view, inodes, owner.Keys, reserved, k, b, d);
    AddrsWrite(view, inodes, owner, b, d);
    DataWrite(view, e, i, d);
    BlockOfFile(view, e, i);
    SplicedInner(Bytes(view, e), 512 * i, 512, at, s);
    SameMapped(view, view', e, n);
    forall j <- inodes | j != k
      ensures SameFile(view, view', inodes[j]) && Mapped(view', inodes[j], BlocksFor(inodes[j].size))
    {
      OthersWrite(view, inodes, owner, b, d, j);
      SameMapped(view, view', inodes[j], BlocksFor(inodes[j].size));
    }
  }

  lemma {:induction false} MappedAt(view: Disk, e: Entry, n: nat, i: nat)
    requires |e.addrs| == NUM_DIRECT && Mapped(view, e, n) && i < MAX_BLOCKS
    ensures Addr(view, e, i) != 0 <==> i < n
  {
    hide Addr;
  }

  lemma {:induction false} GivenTrans(view: Disk, inodes: map<nat, Entry>, view1: Disk,
                                      inodes1: map<nat, Entry>,
                                      view2: Disk, inodes2: map<nat, Entry>, k: nat)
    requires Given(view, inodes, view1, inodes1, k) && Given(view1, inodes1, view2, inodes2, k)
    ensures Given(view, inodes, view2, inodes2, k)
  {
    hide SameFile, Bytes;
    forall j <- inodes | j != k ensures SameFile(view, view2, inodes[j]) {
      SameFileTrans(view, view1, view2, inodes[j]);
    }
  }

  lemma {:induction false} GivenSame(lay: Layout, view: Disk, inodes: map<nat, Entry>, owner: map<nat, (nat, nat)>,
                                     reserved: set<nat>, busy: nat, k: nat)
    requires World(lay, view, inodes, owner, reserved, busy) && k in inodes
    ensures Given(view, inodes, view, inodes, k)
  {
    hide EntryAt, BitAt, Addr, Bytes, Owns, NoHoles, Marked;
  }

  lemma {:induction false} FilledAt(view: Disk, e: Entry, n: nat, i: nat)
    requires |e.addrs| == NUM_DIRECT && Filled(view, e, n) && i < MAX_BLOCKS
    ensures Addr(view, e, i) != 0 <==> i < n
  {
    hide Addr;
  }

  lemma {:induction false} MappedBound(view: Disk, e: Entry, n: nat)
    requires |e.addrs| == NUM_DIRECT && Mapped(view, e, n)
    ensures n <= MAX_BLOCKS
  {
  }

  /** The file of `k` was overwritten from `at` on, growing if need be; nothing else changed. */
  ghost predicate Wrote(view: Disk, inodes: map<nat, Entry>, view': Disk, inodes': map<nat, Entry>,
                        k: nat, at: nat, s: seq<byte>)
  {
    && Whole(inodes) && Whole(inodes') && k in inodes && k in inodes' && Others(view, inodes, view', inodes', k)
    && inodes'[k] == inodes[k].(addrs := inodes'[k].addrs, indirect := inodes'[k].indirect)
    && at + |s| <= MAX_BYTES && Bytes(view', inodes'[k]) == Spliced(Bytes(view, inodes[k]), at, s)
  }

  lemma {:induction false} WroteAfter(view: Disk, inodes: map<nat, Entry>, view1: Disk, view2: Disk,
                                      inodes2: map<nat, Entry>, k: nat, at: nat, s: seq<byte>)
    requires Given(view, inodes, view1, inodes2, k) && Overwrote(view1, view2, inodes2, k, at, s)
    ensures Wrote(view, inodes, view2, inodes2, k, at, s)
  {
    hide SameFile, Bytes, Spliced;
    forall j <- inodes | j != k ensures SameFile(view, view2, inodes[j]) {
      SameFileTrans(view, view1, view2, inodes[j]);
    }
  }

  lemma {:induction false} WroteMore(view: Disk, inodes: map<nat, Entry>, view1: Disk,
                                     inodes1: map<nat, Entry>,
                                     view2: Disk, inodes2: map<nat, Entry>, k: nat, at: nat, s: seq<byte>, t: seq<byte>)
    requires Wrote(view, inodes, view1, inodes1, k, at, s)
             && Wrote(view1, inodes1, view2, inodes2, k, at + |s|, t)
    ensures Wrote(view, inodes, view2, inodes2, k, at, s + t)
  {
    hide SameFile, Bytes, Spliced;
    SplicedMore(Bytes(view, inodes[k]), at, s, t);
    forall j <- inodes | j != k ensures SameFile(view, view2, inodes[j]) {
      SameFileTrans(view, view1, view2, inodes[j]);
    }
  }

  lemma {:induction false} WroteNothing(lay: Layout, view: Disk, inodes: map<nat, Entry>, owner: map<nat, (nat, nat)>,
                                        reserved: set<nat>, busy: nat, k: nat, at: nat)
    requires World(lay, view, inodes, owner, reserved, busy) && k in inodes && at <= MAX_BYTES
    ensures Wrote(view, inodes, view, inodes, k, at, [])
  {
    hide EntryAt, BitAt, Addr, Owns, NoHoles, Marked;
    var c := Bytes(view, inodes[k]);
    assert Spliced(c, at, []) == c;
  }

  lemma {:induction false} WroteWhole(view: Disk, inodes: map<nat, Entry>, view': Disk,
                                      inodes': map<nat, Entry>, k: nat, at: nat, s: seq<byte>)
    requires Wrote(view, inodes, view', inodes', k, at, s)
    ensures k in inodes' && |inodes'[k].addrs| == NUM_DIRECT
  {
  }

  lemma {:induction false} SameMetaSame(lay: Layout, view: Disk)
    ensures SameMeta(lay, view, view)
  {
  }

  lemma {:induction false} SameMetaTrans(lay: Layout, view: Disk, view1: Disk, view2: Disk)
    requires SameMeta(lay, view, view1) && SameMeta(lay, view1, view2)
    ensures SameMeta(lay, view, view2)
  {
    hide At;
  }

  /** Starting to work on one inode. */
  lemma {:induction false} Begin(lay: Layout, view: Disk, inodes: map<nat, Entry>, owner: map<nat, (nat, nat)>,
                                 reserved: set<nat>, k: nat)
    requires World(lay, view, inodes, owner, reserved, 0) && k in inodes
    ensures World(lay, view, inodes, owner, reserved, k) && Mapped(view, inodes[k], BlocksFor(inodes[k].size))
            && Whole(inodes)
  {
    hide EntryAt, BitAt, Mapped, Owns, Marked, BlocksFor;
  }

  /** Storing the inode ends the work on it. */
  lemma {:induction false} InodeStored(lay: Layout, view: Disk, inodes: map<nat, Entry>, owner: map<nat, (nat, nat)>,
                                       reserved: set<nat>, k: nat)
    requires World(lay, view, inodes, owner, reserved, k) && k in inodes
             && Mapped(view, inodes[k], BlocksFor(inodes[k].size))
    ensures lay.inodeStart <= InodeBlock(lay, k) < lay.bitmapStart < SWAP_START && Storable(inodes[k])
    ensures var b := InodeBlock(lay, k);
            var view' := view[b := WithEntry(At(view, b), k % INODES_PER_BLOCK, inodes[k])];
            && World(lay, view', inodes, owner, reserved, 0) && (forall j <- inodes :: SameFile(view, view', inodes[j]))
            && FreeBlocks(lay, view') == FreeBlocks(lay, view)
  {
    hide EntryAt, BitAt, Mapped, Owns, WithEntry, SameFile, SameAddrs, BlocksFor;
    var b := InodeBlock(lay, k);
    var d := WithEntry(At(view, b), k % INODES_PER_BLOCK, inodes[k]);
    var view' := view[b := d];
    InodeBlockBounds(lay, k);
    StoreInode(lay, view, inodes, k);
    ElsewhereFree(lay, view, b, d);
    AddrsWrite(view, inodes, owner, b, d);
    forall j <- inodes ensures SameFile(view, view', inodes[j]) && Mapped(view', inodes[j], BlocksFor(inodes[j].size)) {
      OthersWrite(view, inodes, owner, b, d, j);
      SameMapped(view, view', inodes[j], BlocksFor(inodes[j].size));
    }
  }

  /** A new size alone moves no block and changes no byte. */
  lemma {:induction false} Resized(lay: Layout, view: Disk, inodes: map<nat, Entry>, owner: map<nat, (nat, nat)>,
                                   reserved: set<nat>, k: nat, size: nat, n: nat)
    requires World(lay, view, inodes, owner, reserved, k) && k in inodes && Mapped(view, inodes[k], n)
             && size <= MAX_BYTES
    ensures var e' := inodes[k].(size := size);
            && World(lay, view, inodes[k := e'], owner, reserved, k) && Mapped(view, e', n)
              && Bytes(view, e') == Bytes(view, inodes[k])
  {
    hide EntryAt, BitAt, Marked, WordAt;
    var e, e' := inodes[k], inodes[k].(size := size);
    assert forall i | 0 <= i <= TABLE :: Addr(view, e', i) == Addr(view, e, i);
    hide Addr;
    assert forall p | 0 <= p < MAX_BYTES :: ByteAt(view, e', p) == ByteAt(view, e, p);
    OwnsSame(view, inodes, owner, inodes[k := e']);
  }

  lemma {:induction false} OwnsSame(view: Disk, inodes: map<nat, Entry>, owner: map<nat, (nat, nat)>,
                                    inodes': map<nat, Entry>)
    requires Whole(inodes) && Owns(view, inodes, owner) && Whole(inodes') && inodes'.Keys == inodes.Keys
    requires forall j <- inodes, i | 0 <= i <= TABLE :: Addr(view, inodes'[j], i) == Addr(view, inodes[j], i)
    ensures Owns(view, inodes', owner)
  {
    hide Addr;
  }

  /** If neither the inode nor its stored copy changed, there is nothing to store. */
  lemma {:induction false} Settle(lay: Layout, view: Disk, view': Disk, inodes: map<nat, Entry>,
                                  owner: map<nat, (nat, nat)>, reserved: set<nat>,
                                  owner': map<nat, (nat, nat)>, reserved': set<nat>, k: nat)
    requires World(lay, view, inodes, owner, reserved, 0) && k in inodes && SameMeta(lay, view, view')
    requires World(lay, view', inodes, owner', reserved', k) && Mapped(view', inodes[k], BlocksFor(inodes[k].size))
    ensures World(lay, view', inodes, owner', reserved', 0)
  {
    hide EntryAt, BitAt, Mapped, Owns, Marked, BlocksFor, At;
    InodeBlockBounds(lay, k);
  }

  lemma {:induction false} PartOfFile(view: Disk, e: Entry, i: nat, off: nat, m: nat)
    requires |e.addrs| == NUM_DIRECT && i < MAX_BLOCKS && Addr(view, e, i) != 0 && off / 512 == i
             && off % 512 + m <= 512
    requires off + m <= e.size <= MAX_BYTES
    ensures At(view, Addr(view, e, i))[off % 512..off % 512 + m] == Content(view, e)[off..off + m]
  {
    BlockOfFile(view, e, i);
    var c := Bytes(view, e);
    hide Bytes, Addr, At;
    SubSlice(c, 512 * i, 512, off % 512, m);
    SubSlice(c, 0, e.size, off, m);
  }

  lemma {:induction false} SubSlice(c: seq<byte>, lo: nat, n: nat, at: nat, m: nat)
    requires lo + n <= |c| && at + m <= n
    ensures c[lo..lo + n][at..at + m] == c[lo + at..lo + at + m]
  {
    var l, r := c[lo..lo + n][at..at + m], c[lo + at..lo + at + m];
    assert |l| == |r| && forall i | 0 <= i < m :: l[i] == r[i];
  }

  lemma {:induction false} OthersAfter(view: Disk, inodes: map<nat, Entry>, view1: Disk, view2: Disk,
                                       inodes2: map<nat, Entry>, k: nat)
    requires Whole(inodes) && Whole(inodes2) && Others(view, inodes, view1, inodes2, k) && k in inodes2
             && inodes2[k].size <= MAX_BYTES
    requires forall j <- inodes2 :: SameFile(view1, view2, inodes2[j])
    ensures Others(view, inodes, view2, inodes2, k) && Content(view2, inodes2[k]) == Content(view1, inodes2[k])
  {
    hide SameFile, Bytes;
    SameFileBytes(view1, view2, inodes2[k]);
    forall j <- inodes | j != k ensures SameFile(view, view2, inodes[j]) {
      SameFileTrans(view, view1, view2, inodes[j]);
    }
  }

  lemma {:induction false} WorldBounds(lay: Layout, view: Disk, inodes: map<nat, Entry>, owner: map<nat, (nat, nat)>,
                                       reserved: set<nat>, busy: nat)
    requires World(lay, view, inodes, owner, reserved, busy)
    ensures lay.inodeStart <= lay.bitmapStart < lay.dataStart <= SWAP_START
  {
  }

  lemma {:induction false} WorldWhole(lay: Layout, view: Disk, inodes: map<nat, Entry>, owner: map<nat, (nat, nat)>,
                                      reserved: set<nat>, busy: nat)
    requires World(lay, view, inodes, owner, reserved, busy)
    ensures Whole(inodes)
  {
  }
}
