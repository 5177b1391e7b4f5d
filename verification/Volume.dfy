/**
 The file system that a disk spells out. The stored inodes with a kind are the inodes in
 use, and exactly their blocks and the metadata blocks are marked, so the disk alone
 determines everything.
 */
module Volume {
  import opened Bits
  import opened Blocks
  import opened FsLayout
  import opened Files

  /** The inode `k` as it is on disk. */
  function Stored(lay: Layout, view: Disk, k: nat): (e: Entry)
    ensures |e.addrs| == NUM_DIRECT
  {
    EntryAt(At(view, InodeBlock(lay, k)), k % INODES_PER_BLOCK)
  }

  const UNUSED: nat := 0   // `INODE_INVALID`

  ghost predicate InUse(lay: Layout, view: Disk, inodes: map<nat, Entry>)
  {
    forall k: nat | 0 < k < lay.numInodes :: k in inodes <==> Stored(lay, view, k).kind != UNUSED
  }

  /** Everything below the data area: super block, log, inodes and bitmap. */
  ghost function Meta(lay: Layout): set<nat>
  {
    Below(lay.dataStart)
  }

  ghost function Below(n: nat): (s: set<nat>)
    ensures forall j: nat :: j in s <==> j < n
  {
    if n == 0 then {} else Below(n - 1) + {n - 1}
  }

  ghost predicate Spelled(lay: Layout, view: Disk, inodes: map<nat, Entry>, owner: map<nat, (nat, nat)>)
  {
    World(lay, view, inodes, owner, Meta(lay), 0) && InUse(lay, view, inodes)
  }

  /** The disk spells out a file system without inconsistencies. */
  ghost predicate Consistent(lay: Layout, view: Disk)
  {
    exists inodes, owner :: Spelled(lay, view, inodes, owner)
  }

  lemma {:induction false} Reading(lay: Layout, view: Disk)
      returns (inodes: map<nat, Entry>, owner: map<nat, (nat, nat)>)
    requires Consistent(lay, view)
    ensures Spelled(lay, view, inodes, owner)
  {
    hide World, InUse;
    inodes, owner :| Spelled(lay, view, inodes, owner);
  }

  /** There is only one way to read a disk. */
  lemma {:induction false} SpelledOnce(lay: Layout, view: Disk, inodes: map<nat, Entry>, owner: map<nat, (nat, nat)>,
                                       inodes': map<nat, Entry>, owner': map<nat, (nat, nat)>)
    requires Spelled(lay, view, inodes, owner) && Spelled(lay, view, inodes', owner')
    ensures inodes == inodes' && owner == owner'
  {
    hide BitAt, EntryAt, Mapped, Addr;
    assert forall k :: k in inodes <==> k in inodes';
    forall k <- inodes ensures inodes[k] == inodes'[k] {
      assert k != 0;
    }
    OwnersOnce(view, inodes, owner, owner');
  }

  lemma {:induction false} OwnersOnce(view: Disk, inodes: map<nat, Entry>, owner: map<nat, (nat, nat)>,
                                      owner': map<nat, (nat, nat)>)
    requires Whole(inodes) && Owns(view, inodes, owner) && Owns(view, inodes, owner')
    ensures owner == owner'
  {
    hide Addr;
    forall b ensures (b in owner <==> b in owner') && (b in owner ==> owner[b] == owner'[b]) {
      if b in owner {
        assert Addr(view, inodes[owner[b].0], owner[b].1) == b;
      }
      if b in owner' {
        assert Addr(view, inodes[owner'[b].0], owner'[b].1) == b;
      }
    }
  }

  // An empty file system.

  /** A bitmap block with the first `n` bits set. */
  function Marks(n: nat): Block
    requires n <= 4096
  {
    if n == 0 then Zeros(512) else WithBitAt(Marks(n - 1), n - 1, true)
  }

  lemma {:induction false} MarksAre(n: nat, j: nat)
    requires n <= 4096 && j < 4096
    ensures BitAt(Marks(n), j) <==> j < n
  {
    hide BitAt, WithBitAt;
    if n == 0 {
      NoBits(j);
    } else {
      MarksAre(n - 1, j);
      BitAtLaw(Marks(n - 1), n - 1, true, j);
    }
  }

  lemma {:induction false} NoBits(j: nat)
    requires j < 4096
    ensures !BitAt(Zeros(512), j)
  {
    hide WordAt;
    WordZero(8, j / 64);
    ZeroBit(j % 64);
  }

  lemma {:induction false} ZeroBit(i: nat)
    ensures !Bit(0, i)
  {
    if i > 0 {
      ZeroBit(i - 1);
    }
  }

  lemma {:induction false} NoKind(k: nat)
    requires k < INODES_PER_BLOCK
    ensures EntryAt(Zeros(512), k).kind == UNUSED
  {
    var z := Zeros(512);
    var s := z[64 * k..64 * k + 64];
    var t := s[..8][..2];
    assert forall i | 0 <= i < 2 :: t[i] == z[64 * k + i] == 0;
    DecodeZeros(t);
  }

  /** A disk on which only the metadata is marked holds a file system without files. */
  lemma {:induction false} FormattedIsConsistent(lay: Layout)
    requires ValidLayout(lay)
    ensures Consistent(lay, map[lay.bitmapStart := Marks(lay.dataStart)])
  {
    var view: Disk := map[lay.bitmapStart := Marks(lay.dataStart)];
    forall j: nat | j < SWAP_START ensures BitAt(At(view, lay.bitmapStart), j) <==> j < lay.dataStart {
      MarksAre(lay.dataStart, j);
    }
    forall k: nat | 0 < k < lay.numInodes ensures Stored(lay, view, k).kind == UNUSED {
      InodeBlockBounds(lay, k);
      NoKind(k % INODES_PER_BLOCK);
    }
    hide BitAt, Marks, Stored;
    assert Spelled(lay, view, map[], map[]);
  }

  // What changes to stored inodes do.

  /** No stored inode but `k` differs. */
  ghost predicate StoredBut(lay: Layout, view: Disk, view': Disk, k: nat)
  {
    forall j: nat | j < lay.numInodes && j != k :: Stored(lay, view', j) == Stored(lay, view, j)
  }

  lemma {:induction false} MetaStored(lay: Layout, view: Disk, view': Disk, k: nat)
    requires ValidLayout(lay) && SameMeta(lay, view, view')
    ensures StoredBut(lay, view, view', k)
  {
    hide EntryAt;
    forall j: nat | j < lay.numInodes ensures Stored(lay, view', j) == Stored(lay, view, j) {
      InodeBlockBounds(lay, j);
    }
  }

  lemma {:induction false} OneStored(lay: Layout, view: Disk, k: nat, e: Entry)
    requires Storable(e)
    ensures var b := InodeBlock(lay, k);
            StoredBut(lay, view, view[b := WithEntry(At(view, b), k % INODES_PER_BLOCK, e)], k)
  {
    hide EntryAt, WithEntry;
    var b := InodeBlock(lay, k);
    forall j: nat | j < lay.numInodes && j != k
      ensures Stored(lay, view[b := WithEntry(At(view, b), k % INODES_PER_BLOCK, e)], j) == Stored(lay, view, j)
    {
      if InodeBlock(lay, j) == b {
        EntryLaw(At(view, b), k % INODES_PER_BLOCK, e, j % INODES_PER_BLOCK);
      }
    }
  }

  lemma {:induction false} StoredButTrans(lay: Layout, view: Disk, view1: Disk, view2: Disk, k: nat)
    requires StoredBut(lay, view, view1, k) && StoredBut(lay, view1, view2, k)
    ensures StoredBut(lay, view, view2, k)
  {
    hide Stored;
  }

  /** Work on one inode in use that leaves its kind alone keeps the set of inodes in use. */
  lemma {:induction false} InUseKept(lay: Layout, view: Disk, inodes: map<nat, Entry>, view': Disk,
                                     inodes': map<nat, Entry>, k: nat)
    requires InUse(lay, view, inodes) && StoredBut(lay, view, view', k) && k in inodes && 0 < k < lay.numInodes
    requires Table(lay, view, inodes, 0) && Table(lay, view', inodes', 0)
    requires inodes'.Keys == inodes.Keys && inodes'[k].kind == inodes[k].kind
    ensures InUse(lay, view', inodes')
  {
    hide EntryAt;
    assert Stored(lay, view', k) == inodes'[k] && Stored(lay, view, k) == inodes[k];
  }

  lemma {:induction false} StillInUse(lay: Layout, view: Disk, inodes: map<nat, Entry>, owner: map<nat, (nat, nat)>,
                                      view': Disk, inodes': map<nat, Entry>, owner': map<nat, (nat, nat)>,
                                      reserved: set<nat>, k: nat)
    requires World(lay, view, inodes, owner, reserved, 0) && World(lay, view', inodes', owner', reserved, 0)
    requires StoredBut(lay, view, view', k) && k in inodes && inodes'.Keys == inodes.Keys
             && inodes'[k].kind == inodes[k].kind
    ensures InUse(lay, view, inodes) ==> InUse(lay, view', inodes')
  {
    hide Owns, Marked, NoHoles, Table;
    if InUse(lay, view, inodes) {
      InUseKept(lay, view, inodes, view', inodes', k);
    }
  }

  /** An inode comes into use, or goes out of it. */
  lemma {:induction false} InUseChanged(lay: Layout, view: Disk, inodes: map<nat, Entry>, view': Disk, k: nat, e: Entry)
    requires InUse(lay, view, inodes) && StoredBut(lay, view, view', k) && 0 < k < lay.numInodes
    requires Stored(lay, view', k) == e
    ensures InUse(lay, view', if e.kind != UNUSED then inodes[k := e] else inodes - {k})
  {
    hide Stored;
  }

  lemma {:induction false} TableHas(lay: Layout, view: Disk, inodes: map<nat, Entry>, owner: map<nat, (nat, nat)>,
                                    reserved: set<nat>, k: nat)
    requires World(lay, view, inodes, owner, reserved, 0) && k in inodes
    ensures 0 < k < lay.numInodes && Storable(inodes[k]) && Stored(lay, view, k) == inodes[k]
  {
    hide Owns, Marked, NoHoles, EntryAt;
  }

  // The file system lives in the blocks from the inodes on.

  ghost predicate SameFrom(view: Disk, view': Disk, lo: nat)
  {
    forall b: nat | lo <= b :: At(view', b) == At(view, b)
  }

  lemma {:induction false} SameAddrsFrom(lay: Layout, view: Disk, view': Disk, inodes: map<nat, Entry>,
                                         owner: map<nat, (nat, nat)>, reserved: set<nat>, k: nat)
    requires World(lay, view, inodes, owner, reserved, 0) && SameFrom(view, view', lay.inodeStart) && k in inodes
    ensures SameAddrs(view, view', inodes[k])
  {
    hide BitAt, WordAt, EntryAt;
    var e := inodes[k];
    assert Addr(view, e, TABLE) == e.indirect;
    SameTable(view, view', e);
  }

  lemma {:induction false} WorldFrom(lay: Layout, view: Disk, view': Disk, inodes: map<nat, Entry>,
                                     owner: map<nat, (nat, nat)>, reserved: set<nat>)
    requires World(lay, view, inodes, owner, reserved, 0) && SameFrom(view, view', lay.inodeStart)
    ensures World(lay, view', inodes, owner, reserved, 0)
  {
    hide Addr, BitAt, EntryAt, Filled;
    forall k <- inodes ensures SameAddrs(view, view', inodes[k])
                               && Mapped(view', inodes[k], BlocksFor(inodes[k].size))
    {
      SameAddrsFrom(lay, view, view', inodes, owner, reserved, k);
      assert k != 0;
      SameMapped(view, view', inodes[k], BlocksFor(inodes[k].size));
    }
    hide Mapped;
  }

  lemma {:induction false} ConsistentFrom(lay: Layout, view: Disk, view': Disk)
    requires Consistent(lay, view) && SameFrom(view, view', lay.inodeStart)
    ensures Consistent(lay, view')
  {
    hide World, EntryAt;
    var inodes, owner :| Spelled(lay, view, inodes, owner);
    WorldFrom(lay, view, view', inodes, owner, Meta(lay));
    assert Spelled(lay, view', inodes, owner);
  }
}
