/** Clearing a file: its blocks leave the owners one by one, and nobody else notices. */
module FileClear {
  import opened Blocks
  import opened FsLayout
  import opened Files

  /** The blocks of a file, place by place. */
  ghost function Places(view: Disk, e: Entry): (p: seq<nat>)
    requires |e.addrs| == NUM_DIRECT
    ensures |p| == TABLE + 1 && forall i | 0 <= i <= TABLE :: p[i] == Addr(view, e, i)
  {
    seq(TABLE + 1, i requires 0 <= i <= TABLE => Addr(view, e, i))
  }

  /** The blocks from place `i` on. */
  ghost function Rest(p: seq<nat>, i: nat): set<nat>
  {
    set j | i <= j < |p| && p[j] != 0 :: p[j]
  }

  ghost predicate Separate(p: seq<nat>)
  {
    forall i, j | 0 <= i < j < |p| && p[i] != 0 :: p[i] != p[j]
  }

  lemma {:induction false} RestStep(p: seq<nat>, i: nat)
    requires Separate(p) && i < |p|
    ensures Rest(p, i) == (if p[i] == 0 then {} else {p[i]}) + Rest(p, i + 1) && p[i] !in Rest(p, i + 1)
  {
    forall b ensures b in Rest(p, i) <==> (b == p[i] && b != 0) || b in Rest(p, i + 1) {
      if b in Rest(p, i) {
        var j :| i <= j < |p| && p[j] != 0 && p[j] == b;
      }
    }
  }

  ghost function Mine(owner: map<nat, (nat, nat)>, k: nat): set<nat>
  {
    set b | b in owner && owner[b].0 == k
  }

  lemma {:induction false} MineIsPlaces(view: Disk, inodes: map<nat, Entry>, owner: map<nat, (nat, nat)>, k: nat)
    requires Whole(inodes) && Owns(view, inodes, owner) && k in inodes
    ensures Mine(owner, k) == Rest(Places(view, inodes[k]), 0) && Separate(Places(view, inodes[k]))
  {
    hide Addr;
    var p := Places(view, inodes[k]);
    forall i, j | 0 <= i < j < |p| && p[i] != 0 ensures p[i] != p[j] {
      assert owner[Addr(view, inodes[k], i)] == (k, i);
    }
    forall b ensures b in Mine(owner, k) <==> b in Rest(p, 0) {
      if b in Mine(owner, k) {
        assert p[owner[b].1] == b;
      }
      if b in Rest(p, 0) {
        var j :| 0 <= j < |p| && p[j] != 0 && p[j] == b;
        assert owner[Addr(view, inodes[k], j)] == (k, j);
      }
    }
  }

  /** Without inode `k`, its blocks count as reserved. */
  lemma {:induction false} Orphan(lay: Layout, view: Disk, inodes: map<nat, Entry>, owner: map<nat, (nat, nat)>,
                                  reserved: set<nat>, k: nat)
    requires World(lay, view, inodes, owner, reserved, 0) && k in inodes
    ensures World(lay, view, inodes - {k}, owner - Mine(owner, k), reserved + Mine(owner, k), 0)
            && Mine(owner, k) !! reserved
  {
    hide EntryAt, BitAt, Mapped, Addr, BlocksFor;
    var mine := Mine(owner, k);
    var owner', inodes' := owner - mine, inodes - {k};
    forall j <- inodes', i | 0 <= i <= TABLE && Addr(view, inodes'[j], i) != 0
      ensures Addr(view, inodes'[j], i) in owner' && owner'[Addr(view, inodes'[j], i)] == (j, i)
    {
      assert owner[Addr(view, inodes[j], i)] == (j, i);
    }
    assert owner'.Keys == owner.Keys - mine;
  }

  /** `cache_free` of a block nobody owns any more. */
  lemma {:induction false} FreeKeeps(lay: Layout, view: Disk, inodes: map<nat, Entry>, owner: map<nat, (nat, nat)>,
                                     reserved: set<nat>, b: nat)
    requires World(lay, view, inodes, owner, reserved, 0) && b in reserved && lay.dataStart <= b < SWAP_START
    ensures var view' := WithMark(lay, view, b, false);
            World(lay, view', inodes, owner, reserved - {b}, 0)
              && (forall j <- inodes :: SameFile(view, view', inodes[j]))
  {
    hide BitAt, WithBitAt, Table, Owns, NoHoles, SameFile;
    assert b !in owner.Keys;
    UnmarkOne(lay, view, owner.Keys, reserved, b);
    PlainWrite(lay, view, inodes, owner, reserved, 0, lay.bitmapStart, WithBitAt(At(view, lay.bitmapStart), b, false),
      reserved - {b});
  }

  /** An inode without blocks fits any world that does not have it. */
  lemma {:induction false} Reborn(lay: Layout, view: Disk, inodes: map<nat, Entry>, owner: map<nat, (nat, nat)>,
                                  reserved: set<nat>, k: nat, e: Entry)
    requires World(lay, view, inodes, owner, reserved, 0) && k !in inodes && 0 < k < lay.numInodes
    requires Storable(e) && e.size == 0 && e.indirect == 0 && forall i | 0 <= i < NUM_DIRECT :: e.addrs[i] == 0
    ensures World(lay, view, inodes[k := e], owner, reserved, k) && Mapped(view, e, BlocksFor(e.size))
            && Content(view, e) == []
  {
    hide EntryAt, BitAt, WordAt, Bytes;
    assert forall i | 0 <= i <= TABLE :: Addr(view, e, i) == 0;
    hide Addr;
  }

  /**
   Whatever happened to one file in between: if it is empty again, all other files are as
   they were and the reserved blocks are the same, then so is the bitmap.
   */
  lemma {:induction false} EmptyAgain(lay: Layout, view: Disk, inodes: map<nat, Entry>, owner: map<nat, (nat, nat)>,
                                      reserved: set<nat>,
                                      view': Disk, inodes': map<nat, Entry>, owner': map<nat, (nat, nat)>, k: nat)
    requires World(lay, view, inodes, owner, reserved, 0) && World(lay, view', inodes', owner', reserved, 0)
             && k in inodes && k in inodes'
    requires inodes[k].size == 0 && inodes'[k].size == 0 && Others(view, inodes, view', inodes', k)
    ensures forall j | 0 <= j < SWAP_START :: BitAt(At(view', lay.bitmapStart), j) <==>
                                                BitAt(At(view, lay.bitmapStart), j)
  {
    hide EntryAt, BitAt, Addr, Bytes;
    OwnedByOthers(view, inodes, owner, view', inodes', owner', k);
    OwnedByOthers(view', inodes', owner', view, inodes, owner, k);
    assert owner.Keys == owner'.Keys;
  }

  lemma {:induction false} OwnedByOthers(view: Disk, inodes: map<nat, Entry>, owner: map<nat, (nat, nat)>, view': Disk,
                                         inodes': map<nat, Entry>,
                                         owner': map<nat, (nat, nat)>, k: nat)
    requires Whole(inodes) && Whole(inodes') && Owns(view, inodes, owner) && Owns(view', inodes', owner') && k in inodes
    requires inodes.Keys == inodes'.Keys && Mapped(view, inodes[k], 0)
    requires forall j <- inodes :: j != k ==> inodes'[j] == inodes[j] && SameAddrs(view, view', inodes[j])
    ensures owner.Keys <= owner'.Keys
  {
    assert Addr(view, inodes[k], TABLE) == 0;
    hide Addr;
    forall b <- owner ensures b in owner' {
      var j, i := owner[b].0, owner[b].1;
      assert Addr(view, inodes[j], i) == b;
      assert j != k;
      assert Addr(view', inodes[j], i) == b;
    }
  }

  /** The state when clearing began. */
  datatype Snap = Snap(lay: Layout, view: Disk, inodes: map<nat, Entry>, owner: map<nat, (nat, nat)>,
    reserved: set<nat>, logged: set<nat>, rm: nat)

  ghost predicate Startable(s: Snap, k: nat)
  {
    && World(s.lay, s.view, s.inodes, s.owner, s.reserved, 0) && k in s.inodes && |s.inodes[k].addrs| == NUM_DIRECT
  }

  ghost function PlacesOf(s: Snap, k: nat): seq<nat>
  {
    if k in s.inodes && |s.inodes[k].addrs| == NUM_DIRECT then Places(s.view, s.inodes[k]) else []
  }

  /** There was a block before place `i`. */
  ghost predicate Begun(s: Snap, k: nat, i: nat)
  {
    Rest(PlacesOf(s, k), i) != Rest(PlacesOf(s, k), 0)
  }

  /** The blocks before place `i` are free again; so far only the bitmap has changed. */
  ghost predicate Cleared(s: Snap, k: nat, i: nat, view: Disk, owner: map<nat, (nat, nat)>, reserved: set<nat>,
                          logged: set<nat>, rm: nat)
  {
    && World(s.lay, view, s.inodes - {k}, owner, reserved, 0) && owner == s.owner - Mine(s.owner, k)
    && reserved == s.reserved + Rest(PlacesOf(s, k), i)
    && (forall c: nat | c != s.lay.bitmapStart :: At(view, c) == At(s.view, c))
    && (forall j <- s.inodes :: j != k ==> |s.inodes[j].addrs| == NUM_DIRECT && SameFile(s.view, view, s.inodes[j]))
    && logged == s.logged + (if Begun(s, k, i) then {s.lay.bitmapStart} else {})
    && rm + (if s.lay.bitmapStart in s.logged then 0 else 1) == s.rm + if s.lay.bitmapStart in logged then 0 else 1
  }

  lemma {:induction false} ClearStart(s: Snap, k: nat)
    requires Startable(s, k)
    ensures Cleared(s, k, 0, s.view, s.owner - Mine(s.owner, k), s.reserved + Mine(s.owner, k), s.logged, s.rm)
    ensures Separate(PlacesOf(s, k)) && forall b <- PlacesOf(s, k) ::
                b != 0 ==> s.lay.dataStart <= b < SWAP_START && b !in s.reserved
  {
    hide World, Bytes, Addr;
    Orphan(s.lay, s.view, s.inodes, s.owner, s.reserved, k);
    PlacesLie(s, k);
  }

  lemma {:induction false} PlacesLie(s: Snap, k: nat)
    requires Startable(s, k)
    ensures Whole(s.inodes) && Mine(s.owner, k) == Rest(PlacesOf(s, k), 0) && Separate(PlacesOf(s, k))
    ensures forall b <- PlacesOf(s, k) :: b != 0 ==> s.lay.dataStart <= b < SWAP_START && b !in s.reserved
  {
    hide EntryAt, BitAt, Addr, NoHoles, Table;
    MineIsPlaces(s.view, s.inodes, s.owner, k);
    var p := PlacesOf(s, k);
    forall b <- p | b != 0 ensures b in s.owner {
      var i :| 0 <= i < |p| && p[i] == b;
      assert Addr(s.view, s.inodes[k], i) == b;
    }
  }

  lemma {:induction false} ClearSkip(s: Snap, k: nat, i: nat, view: Disk, owner: map<nat, (nat, nat)>,
                                     reserved: set<nat>, logged: set<nat>, rm: nat)
    requires Cleared(s, k, i, view, owner, reserved, logged, rm) && i < |PlacesOf(s, k)| && Separate(PlacesOf(s, k))
             && PlacesOf(s, k)[i] == 0
    ensures Cleared(s, k, i + 1, view, owner, reserved, logged, rm)
  {
    hide World, SameFile, PlacesOf;
    RestStep(PlacesOf(s, k), i);
  }

  lemma {:induction false} ClearStep(s: Snap, k: nat, i: nat, view: Disk, owner: map<nat, (nat, nat)>,
                                     reserved: set<nat>, logged: set<nat>, rm: nat, rm': nat)
    requires Cleared(s, k, i, view, owner, reserved, logged, rm) && i < |PlacesOf(s, k)| && Separate(PlacesOf(s, k))
             && PlacesOf(s, k)[i] != 0
    requires forall b <- PlacesOf(s, k) :: b != 0 ==> s.lay.dataStart <= b < SWAP_START && b !in s.reserved
    requires rm' + (if s.lay.bitmapStart in logged then 0 else 1) == rm
    ensures var b := PlacesOf(s, k)[i];
            && b < 4096 && Cleared(s, k, i + 1, WithMark(s.lay, view, b, false), owner, reserved - {b},
              logged + {s.lay.bitmapStart}, rm')
  {
    hide World, SameFile, PlacesOf, WithBitAt;
    var p := PlacesOf(s, k);
    var b := p[i];
    assert b in p && b in Rest(p, i);
    RestStep(p, i);
    FreeKeeps(s.lay, view, s.inodes - {k}, owner, reserved, b);
    forall j <- s.inodes | j != k ensures SameFile(s.view, WithMark(s.lay, view, b, false), s.inodes[j]) {
      assert (s.inodes - {k})[j] == s.inodes[j];
      SameFileTrans(s.view, view, WithMark(s.lay, view, b, false), s.inodes[j]);
    }
    assert reserved - {b} == s.reserved + Rest(p, i + 1);
    assert b in Rest(p, 0) && Begun(s, k, i + 1);
  }

  /** The blocks listed in the address table can still be read off while they are being freed. */
  lemma {:induction false} StillListed(s: Snap, k: nat, view: Disk, i: nat)
    requires Startable(s, k) && (forall c: nat | c != s.lay.bitmapStart :: At(view, c) == At(s.view, c)) && i <= TABLE
    requires s.inodes[k].indirect == 0 || s.inodes[k].indirect in PlacesOf(s, k)
    ensures Addr(view, s.inodes[k], i) == PlacesOf(s, k)[i]
  {
    hide EntryAt, BitAt, NoHoles, Table, WordAt;
    PlacesLie(s, k);
    assert Addr(s.view, s.inodes[k], TABLE) == s.inodes[k].indirect == PlacesOf(s, k)[TABLE];
    assert s.inodes[k].indirect == 0 || At(view, s.inodes[k].indirect) == At(s.view, s.inodes[k].indirect);
    SameTable(s.view, view, s.inodes[k]);
  }

  /** With all its blocks free, an inode has no block and nothing is reserved on its account. */
  lemma {:induction false} ClearEnd(s: Snap, k: nat, view: Disk, owner: map<nat, (nat, nat)>, reserved: set<nat>,
                                    logged: set<nat>, rm: nat, e: Entry)
    requires Startable(s, k) && Cleared(s, k, TABLE + 1, view, owner, reserved, logged, rm)
    requires e == s.inodes[k].(size := 0, indirect := 0, addrs := e.addrs) && |e.addrs| == NUM_DIRECT
             && forall i | 0 <= i < NUM_DIRECT :: e.addrs[i] == 0
    ensures reserved == s.reserved && World(s.lay, view, s.inodes[k := e], owner, reserved, k)
            && Mapped(view, e, BlocksFor(e.size)) && Content(view, e) == []
    ensures Whole(s.inodes) && Others(s.view, s.inodes, view, s.inodes[k := e], k)
  {
    hide World, SameFile, Bytes, Mapped;
    PlacesLie(s, k);
    KeyBounds(s, k);
    assert Rest(PlacesOf(s, k), TABLE + 1) == {};
    assert (s.inodes - {k})[k := e] == s.inodes[k := e];
    Reborn(s.lay, view, s.inodes - {k}, owner, reserved, k, e);
  }

  /** An inode has a block exactly if it has a byte. */
  lemma {:induction false} BegunIff(s: Snap, k: nat)
    requires Startable(s, k)
    ensures Begun(s, k, TABLE + 1) <==> s.inodes[k].size > 0
  {
    hide EntryAt, BitAt, Table, Owns, Marked, WordAt;
    var p, e := PlacesOf(s, k), s.inodes[k];
    assert Mapped(s.view, e, BlocksFor(e.size));
    assert Rest(p, TABLE + 1) == {};
    if e.size > 0 {
      assert p[0] == Addr(s.view, e, 0) != 0;
      assert p[0] in Rest(p, 0);
    } else {
      assert forall i | 0 <= i <= TABLE :: p[i] == Addr(s.view, e, i) == 0;
      assert Rest(p, 0) == {};
    }
  }

  /** What freeing the blocks of an inode and storing it syncs. */
  ghost function ClearSet(lay: Layout, size: nat, k: nat): set<nat>
  {
    (if size > 0 then {lay.bitmapStart} else {}) + {InodeBlock(lay, k)}
  }

  lemma {:induction false} ClearSetSmall(lay: Layout, size: nat, k: nat, logged: set<nat>)
    ensures |ClearSet(lay, size, k) - logged| <= 2
  {
    var a := ClearSet(lay, size, k) - logged;
    var b := {lay.bitmapStart} + {InodeBlock(lay, k)};
    Fewer(a, b);
  }

  lemma {:induction false} Fewer(a: set<nat>, b: set<nat>)
    requires a <= b
    ensures |a| <= |b|
  {
    assert b == a + (b - a);
  }

  lemma {:induction false} KeyBounds(s: Snap, k: nat)
    requires Startable(s, k)
    ensures 0 < k < s.lay.numInodes && Storable(s.inodes[k])
            && (s.inodes[k].indirect != 0 ==> s.inodes[k].indirect in PlacesOf(s, k))
  {
    hide EntryAt, BitAt, NoHoles, Table, Owns, Marked, WordAt;
    var p := PlacesOf(s, k);
    assert Addr(s.view, s.inodes[k], TABLE) == s.inodes[k].indirect;
    assert p[TABLE] in p;
  }

  lemma {:induction false} PlacesAre(s: Snap, k: nat)
    requires Startable(s, k)
    ensures |PlacesOf(s, k)| == TABLE + 1 && PlacesOf(s, k)[TABLE] == s.inodes[k].indirect
    ensures forall i | 0 <= i < NUM_DIRECT :: PlacesOf(s, k)[i] == s.inodes[k].addrs[i]
  {
    hide World, WordAt;
  }

  /** Without an address table nothing is left after the direct blocks. */
  lemma {:induction false} ClearNoTable(s: Snap, k: nat, view: Disk, owner: map<nat, (nat, nat)>, reserved: set<nat>,
                                        logged: set<nat>, rm: nat)
    requires Startable(s, k) && Cleared(s, k, NUM_DIRECT, view, owner, reserved, logged, rm)
             && s.inodes[k].indirect == 0
    ensures Cleared(s, k, TABLE + 1, view, owner, reserved, logged, rm)
  {
    hide World, SameFile, WordAt;
    var p := PlacesOf(s, k);
    assert Rest(p, NUM_DIRECT) == {} == Rest(p, TABLE + 1);
  }
}
