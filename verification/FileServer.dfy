/**
 The two layers put together. Every file operation runs between `begin_op` and `end_op`,
 one after the other, and every sync it makes is made by the block cache. At each end the
 file system is whole, so a crash at any step of any such history leaves a disk from which
 recovery makes a whole file system again.
 */
module FileServer {
  import opened Bits
  import opened Blocks
  import opened FsLayout
  import opened Files
  import opened FileClear
  import opened Volume
  import opened Inodes
  import opened WriteCost
  import opened Wal
  import opened WalSafety
  import opened WalTheorem
  import opened CacheHistory
  import opened BlockCache
  import opened CrashWorld
  import J = Journal
  import D = Directory

  /** The header entries as a set. */
  function Logged(h: Header): (s: set<nat>)
    requires h.n <= |h.nos|
    ensures forall b: nat :: b in s <==> HasEntry(h, 0, b)
  {
    set i | 0 <= i < h.n :: h.nos[i]
  }

  lemma {:induction false} LoggedMore(h: Header, h': Header, b: nat)
    requires h.n <= |h.nos| && h'.n <= |h'.nos|
    requires forall c: nat :: HasEntry(h', 0, c) <==> HasEntry(h, 0, c) || c == b
    ensures Logged(h') == Logged(h) + {b} && (HasEntry(h, 0, b) <==> b in Logged(h))
  {
    hide Logged, HasEntry;
  }

  lemma {:induction false} SameFromPut(view: Disk, view': Disk, lo: nat, b: nat, d: Block)
    requires SameFrom(view, view', lo)
    ensures SameFrom(view[b := d], view'[b := d], lo)
  {
    var w, w' := view[b := d], view'[b := d];
    forall x: nat | lo <= x ensures At(w', x) == At(w, x) {
      assert At(view', x) == At(view, x);
    }
  }

  lemma {:induction false} SameFromBack(view: Disk, view': Disk, lo: nat)
    requires SameFrom(view, view', lo)
    ensures SameFrom(view', view, lo)
  {
  }

  lemma {:induction false} TidyWhole(lay: Layout, view: Disk, inodes: map<nat, Entry>, owner: map<nat, (nat, nat)>)
    requires World(lay, view, inodes, owner, Meta(lay), 0) && InUse(lay, view, inodes)
    ensures Consistent(lay, view)
  {
    hide World, InUse;
    assert Spelled(lay, view, inodes, owner);
  }

  /** How an operation ends: `begin_op` does not return, something panics, or the operation commits. */
  datatype Ending = Waits | Halts | Finished

  /** When a write panics that has the log to itself, with ten blocks reserved. */
  ghost predicate CannotWrite(lay: Layout, view: Disk, e: Entry, k: nat, offset: nat, count: nat)
    requires |e.addrs| == NUM_DIRECT && e.size <= MAX_BYTES
  {
    if e.kind == DEVICE then e.major != 1
    else
      || offset > e.size || offset + count > MAX_BYTES || offset + count == 0
      || Unaffordable(lay, view, e, k, {}, OP_MAX_NUM_BLOCKS, offset, offset + count)
  }

  /** When a new entry cannot be made. */
  ghost predicate CannotLink(lay: Layout, view: Disk, e: Entry, k: nat, name: seq<byte>)
    requires |e.addrs| == NUM_DIRECT && e.size <= MAX_BYTES && |name| == D.NAME_MAX
  {
    && (forall i :: !D.Bears(Content(view, e), i, name))
    && exists i :: D.FirstFree(Content(view, e), i)
                   && D.NoRoom(lay, view, e, k, {}, OP_MAX_NUM_BLOCKS, D.ENTRY * i)
  }

  lemma {:induction false} LinkVerdict(lay: Layout, view: Disk, e: Entry, k: nat, name: seq<byte>, i: nat)
    requires |e.addrs| == NUM_DIRECT && e.size <= MAX_BYTES && |name| == D.NAME_MAX && D.FirstFree(Content(view, e), i)
    ensures CannotLink(lay, view, e, k, name) <==>
            && !(exists j :: D.Bears(Content(view, e), j, name))
            && D.NoRoom(lay, view, e, k, {}, OP_MAX_NUM_BLOCKS, D.ENTRY * i)
  {
    hide Content, D.Bears, D.NoRoom, D.FirstFree;
    D.OneFree(Content(view, e), i);
  }

  ghost predicate Usable(fs: Fs, k: nat)
    reads fs
  {
    k in fs.inodes && |fs.inodes[k].addrs| == NUM_DIRECT && fs.inodes[k].size <= MAX_BYTES
  }

  lemma {:induction false} AreUsable(fs: Fs, k: nat)
    requires fs.Sound(0) && k in fs.inodes
    ensures Usable(fs, k)
  {
    hide Owns, Marked, NoHoles, Table, J.Puts;
  }

  class Server {
    const lay: Layout
    const cache: Cache
    const fs: Fs

    /** The cache works for this file system, and has done so from the start. */
    ghost predicate Recoverable()
      reads cache
    {
      cache.Mirrors() && Apart(cache.cfg, lay) && forall v :: cache.good(v) <==> Consistent(lay, v)
    }

    /** Between operations. */
    ghost predicate Valid()
      reads cache, fs
    {
      && Recoverable() && cache.Valid() && cache.ops == map[] && cache.st.held == map[]
      && fs.lay == lay && fs.Tidy() && SameFrom(cache.Now().view, fs.view, lay.inodeStart)
      && cache.Now().durable == cache.Now().view && cache.header.n == 0 && cache.logUsed == 0
    }

    /** What the running operation `op` sees of the cache. */
    ghost predicate Shown(op: nat, c: J.Client)
      reads cache
    {
      && Recoverable() && cache.Valid() && cache.st.held == map[] && cache.ops == map[op := c.rm]
      && cache.header.n <= |cache.header.nos| && Logged(cache.header) == c.logged
      && SameFrom(cache.Now().view, c.view, lay.inodeStart)
    }

    /** Mount a disk. */
    constructor (cfg: Config, lay: Layout, disk: Disk)
      requires ValidConfig(cfg) && ValidHeader(cfg, OnDisk(cfg, disk)) && Apart(cfg, lay)
      requires Consistent(lay, Initially(cfg, disk).view)
      ensures Valid() && this.lay == lay && cache.cfg == cfg && cache.origin == disk && fresh(cache) && fresh(fs)
    {
      hide Followed, Promise, QuietGood, Recent, Ages, Shows, Inv, Consistent, World, InUse, Meta, J.Puts;
      hide OnDisk, ValidHeader, Initially, Recovered;
      this.lay := lay;
      var c := new Cache(cfg, disk, v => Consistent(lay, v));
      InitiallyRecovered(cfg, disk);
      StartsQuiet(cfg, disk);
      ConsistentFrom(lay, Initially(cfg, disk).view, c.disk);
      var f := new Fs(lay, c.disk);
      cache, fs := c, f;
    }

    /** `begin_op`; false where the caller has to wait. */
    method Begin(op: nat) returns (ok: bool)
      requires Valid()
      modifies cache, fs
      ensures ok <==> OP_MAX_NUM_BLOCKS <= LogSize(cache.cfg)
      ensures !ok ==> Valid()
      ensures ok ==> Shown(op, fs.start) && fs.Tidy() && fs.puts == [] && fs.logged == {} && fs.rm == OP_MAX_NUM_BLOCKS
      ensures fs.view == old(fs.view) && fs.inodes == old(fs.inodes)
    {
      hide Followed, Promise, QuietGood, Recent, Ages, Shows, Inv, Consistent, World, InUse, Meta, J.Puts;
      ok := cache.BeginOp(op);
      if ok {
        fs.StartOp(Logged(cache.header), cache.ops[op]);
      }
    }

    /** The syncs of the operation, in order. */
    method Play(op: nat)
      requires Shown(op, fs.start) && fs.Traced() && fs.lay == lay
      modifies cache
      ensures Shown(op, J.Client(fs.view, fs.logged, fs.rm))
    {
      hide Followed, Promise, QuietGood, Recent, Ages, Shows, Inv, Consistent, World, InUse, Meta;
      ghost var c := fs.start;
      var i := 0;
      while i < |fs.puts|
        invariant 0 <= i <= |fs.puts| && Shown(op, c)
        invariant J.Puts(lay, c, fs.puts[i..], J.Client(fs.view, fs.logged, fs.rm))
      {
        PlayOne(op, fs.puts[i], c);
        c := J.AfterPut(c, fs.puts[i]);
        i := i + 1;
      }
    }

    method PlayOne(op: nat, p: J.Change, ghost c: J.Client)
      requires Shown(op, c) && lay.inodeStart <= p.b < SWAP_START && J.MayPut(c, p.b)
      modifies cache
      ensures Shown(op, J.AfterPut(c, p))
    {
      hide Followed, Promise, QuietGood, Recent, Ages, Shows, Inv, Consistent, World, InUse, Meta, J.Puts;
      hide HasEntry, Logged, SameFrom;
      ghost var h, view := cache.header, cache.Now().view;
      var r := cache.Put(op, p.b, p.data);
      LoggedMore(h, cache.header, p.b);
      SameFromPut(view, c.view, lay.inodeStart, p.b, p.data);
      assert cache.ops == map[op := J.AfterPut(c, p).rm];
    }

    /** `end_op`: the operation commits. */
    method End(op: nat)
      requires Shown(op, J.Client(fs.view, fs.logged, fs.rm)) && fs.Tidy() && fs.lay == lay
      modifies cache
      ensures Valid()
    {
      hide Followed, Promise, QuietGood, Recent, Ages, Shows, Inv, Consistent, World, InUse, Meta, J.Puts;
      hide SameFrom;
      FollowedInv(cache.cfg, cache.origin, cache.acts, cache.es, cache.st);
      DirtyHeld(cache.cfg, cache.st, cache.Now());
      TidyWhole(lay, fs.view, fs.inodes, fs.owner);
      SameFromBack(cache.Now().view, fs.view, lay.inodeStart);
      ConsistentFrom(lay, fs.view, cache.Now().view);
      cache.EndOp(op);
      assert cache.ops == map[];
    }

    // File operations.

    /** `inode_write` as one operation. */
    method Write(op: nat, k: nat, src: seq<byte>, offset: nat) returns (end: Ending, r: Outcome)
      requires Valid() && k in fs.inodes && offset < U64 && |src| < U64
      modifies cache, fs
      ensures Recoverable() && (!end.Halts? ==> Valid()) && (end.Halts? ==> r.Panic?)
      ensures end.Waits? <==> LogSize(cache.cfg) < OP_MAX_NUM_BLOCKS
      ensures old(Usable(fs, k))
      ensures !end.Waits? ==> (end.Halts? <==> old(CannotWrite(lay, fs.view, fs.inodes[k], k, offset, |src|)))
      ensures end.Finished? ==> if old(fs.inodes[k].kind) == DEVICE then r.Console? else r.Done?
      ensures end.Waits? || r.Console? ==> fs.view == old(fs.view) && fs.inodes == old(fs.inodes)
      ensures end.Finished? && r.Done? ==>
                && r.n == |src| && Usable(fs, k) && offset <= old(fs.inodes[k].size)
                && Content(fs.view, fs.inodes[k]) == Overwritten(old(Content(fs.view, fs.inodes[k])), offset, src)
                && Whole(old(fs.inodes)) && Others(old(fs.view), old(fs.inodes), fs.view, fs.inodes, k)
    {
      hide World, InUse, Meta, J.Puts, Content, Overwritten, Others, SameFrom, Consistent, FreeBlocks, BlocksFor,
        Touched, Unaffordable;
      r := Panic;
      AreUsable(fs, k);
      var ok := Begin(op);
      if !ok {
        return Waits, r;
      }
      r := fs.Write(k, src, offset);
      Play(op);
      if r.Panic? {
        return Halts, r;
      }
      End(op);
      end := Finished;
    }

    /** `inode_alloc` as one operation. */
    method Create(op: nat, kind: nat) returns (end: Ending, k: nat)
      requires Valid() && UNUSED < kind < 0x1_0000
      modifies cache, fs
      ensures Recoverable() && (!end.Halts? ==> Valid())
      ensures end.Waits? <==> LogSize(cache.cfg) < OP_MAX_NUM_BLOCKS
      ensures !end.Waits? ==> (end.Halts? <==> forall j: nat | 0 < j < lay.numInodes :: j in old(fs.inodes))
      ensures end.Finished? ==> 0 < k < lay.numInodes && forall j: nat | 0 < j < k :: j in old(fs.inodes)
      ensures end.Waits? ==> fs.view == old(fs.view) && fs.inodes == old(fs.inodes)
      ensures end.Finished? ==> k !in old(fs.inodes) && fs.inodes == old(fs.inodes)[k := Fresh(kind)]
      ensures end.Finished? ==> forall j <- old(fs.inodes) ::
                                  j in fs.inodes && Usable(fs, j) && SameFile(old(fs.view), fs.view, fs.inodes[j])
    {
      hide World, InUse, Meta, J.Puts, Content, SameFile, SameFrom, Consistent, Stored, StoredBut;
      k := 0;
      var ok := Begin(op);
      if !ok {
        return Waits, k;
      }
      ok, k := fs.AllocInode(kind);
      Play(op);
      if !ok {
        return Halts, k;
      }
      forall j <- fs.inodes ensures Usable(fs, j) {
        AreUsable(fs, j);
      }
      End(op);
      end := Finished;
    }

    /** The last `inode_put` of an inode without links as one operation. */
    method Delete(op: nat, k: nat) returns (end: Ending)
      requires Valid() && k in fs.inodes
      modifies cache, fs
      ensures Recoverable() && Valid() && !end.Halts?
      ensures end.Waits? <==> LogSize(cache.cfg) < OP_MAX_NUM_BLOCKS
      ensures end.Waits? ==> fs.view == old(fs.view) && fs.inodes == old(fs.inodes)
      ensures end.Finished? ==> fs.inodes == old(fs.inodes) - {k}
      ensures end.Finished? ==> forall j <- fs.inodes :: Usable(fs, j) && SameFile(old(fs.view), fs.view, fs.inodes[j])
    {
      hide World, InUse, Meta, J.Puts, Content, SameFile, SameFrom, Consistent, Stored, StoredBut, Mine;
      AreUsable(fs, k);
      var ok := Begin(op);
      if !ok {
        return Waits;
      }
      ok := fs.FreeInode(k);
      Play(op);
      forall j <- fs.inodes ensures Usable(fs, j) {
        AreUsable(fs, j);
      }
      End(op);
      end := Finished;
    }

    /** `inode_insert` as one operation. */
    method Link(op: nat, k: nat, name: seq<byte>, no: nat) returns (end: Ending, r: D.Inserted)
      requires Valid() && D.Opened(fs, k) && |name| == D.NAME_MAX
      modifies cache, fs
      ensures Recoverable() && (!end.Halts? ==> Valid()) && (end.Finished? ==> !r.Failed?)
      ensures end.Waits? <==> LogSize(cache.cfg) < OP_MAX_NUM_BLOCKS
      ensures !end.Waits? ==>
                (end.Halts? <==> || old(fs.inodes[k].kind) != D.DIRECTORY
                                 || old(CannotLink(lay, fs.view, fs.inodes[k], k, name)))
      ensures end.Finished? ==> (r.Exists? <==> exists i :: D.Bears(old(Content(fs.view, fs.inodes[k])), i, name))
      ensures end.Waits? || (end.Finished? && r.Exists?) ==> fs.view == old(fs.view) && fs.inodes == old(fs.inodes)
      ensures end.Finished? && r.At? ==>
                && Whole(old(fs.inodes)) && Others(old(fs.view), old(fs.inodes), fs.view, fs.inodes, k)
                && D.FirstFree(old(Content(fs.view, fs.inodes[k])), r.index / D.ENTRY) && r.index % D.ENTRY == 0
      ensures end.Finished? && r.At? ==>
                && Usable(fs, k)
                && Content(fs.view, fs.inodes[k]) ==
                   Overwritten(old(Content(fs.view, fs.inodes[k])), r.index,
                               [(no % 0x100) as byte, (no / 0x100 % 0x100) as byte] + name)
      ensures end.Finished? && r.At? ==>
                && D.Opened(fs, k) && D.Map(Content(fs.view, fs.inodes[k])) ==
                   D.Bound(old(D.Map(Content(fs.view, fs.inodes[k]))), D.Name(name), no % 0x1_0000)
    {
      hide World, InUse, Meta, J.Puts, Content, SameFrom, Consistent, FreeBlocks, Others, D.Name, D.Dir, Overwritten,
        D.Bears, D.Vacant, Unaffordable, CannotLink, D.NoRoom, D.FirstFree;
      r := D.Failed;
      var ok := Begin(op);
      if !ok {
        return Waits, r;
      }
      ghost var c := Content(fs.view, fs.inodes[k]);
      ghost var i := D.SomeFree(c, 0);
      LinkVerdict(lay, fs.view, fs.inodes[k], k, name, i);
      r := D.Insert(fs, k, name, no);
      Play(op);
      if r.Failed? {
        return Halts, r;
      }
      End(op);
      end := Finished;
    }

    /** `inode_remove` as one operation. */
    method Unlink(op: nat, k: nat, index: nat) returns (end: Ending)
      requires Valid() && D.Opened(fs, k) && index < U64
      modifies cache, fs
      ensures Recoverable() && (!end.Halts? ==> Valid())
      ensures end.Waits? <==> LogSize(cache.cfg) < OP_MAX_NUM_BLOCKS
      ensures !end.Waits? ==>
                (end.Halts? <==> || index % D.ENTRY != 0
                                 || (index < old(fs.inodes[k].size)
                                     && old(D.NoWrite(lay, fs.view, fs.inodes[k], k, {}, OP_MAX_NUM_BLOCKS, index))))
      ensures end.Waits? ==> fs.view == old(fs.view) && fs.inodes == old(fs.inodes)
      ensures end.Finished? && (index >= old(fs.inodes[k].size) || old(fs.inodes[k].kind) == DEVICE) ==>
                fs.view == old(fs.view) && fs.inodes == old(fs.inodes)
      ensures end.Finished? && index < old(fs.inodes[k].size) && old(fs.inodes[k].kind) != DEVICE ==>
                && Whole(old(fs.inodes)) && Others(old(fs.view), old(fs.inodes), fs.view, fs.inodes, k) && Usable(fs, k)
                && Content(fs.view, fs.inodes[k]) ==
                   Overwritten(old(Content(fs.view, fs.inodes[k])), index, Zeros(D.ENTRY))
      ensures end.Finished? ==> D.Opened(fs, k)
      ensures end.Finished? && index < old(fs.inodes[k].size) && old(fs.inodes[k].kind) == D.DIRECTORY ==>
                D.Map(Content(fs.view, fs.inodes[k])) == D.Unbound(old(Content(fs.view, fs.inodes[k])), index / D.ENTRY)
    {
      hide World, InUse, Meta, J.Puts, Content, SameFrom, Consistent, FreeBlocks, Others, D.Name, D.Dir, Overwritten,
        Unaffordable;
      var ok := Begin(op);
      if !ok {
        return Waits;
      }
      ok := D.Remove(fs, k, index);
      Play(op);
      if !ok {
        return Halts;
      }
      End(op);
      end := Finished;
    }

    // Crashes.

    /**
     A crash after any step so far, also in the middle of an operation or of a commit, leaves a
     disk that can be mounted, with the file system as it was at a moment between operations.
     */
    lemma Survives(n: nat, s: State)
      requires Recoverable() && n <= |cache.acts| && n <= |cache.es|
      requires Run(cache.cfg, Rebooted(cache.origin), cache.acts[..n], cache.es[..n], s)
      ensures ValidHeader(cache.cfg, OnDisk(cache.cfg, s.disk)) && Consistent(lay, Initially(cache.cfg, s.disk).view)
      ensures exists j :: 0 <= j <= n && AsAt(cache.cfg, lay, cache.origin, cache.es[..n], j, s.disk)
    {
      hide Run, QuietGood, Consistent, OnDisk, ValidHeader, Initially, Shows, Recent, Ages, Promise, AsAt;
      HistoryAtomic(cache.cfg, lay, cache.origin, cache.acts[..n], cache.es[..n], s);
      HistorySurvives(lay, cache.good, cache.cfg, cache.origin, cache.acts, cache.es, cache.st, n, s);
    }

    /** Between operations, everything done so far survives: mounting the disk again gives the same file system. */
    lemma Durable()
      requires Valid()
      ensures ValidHeader(cache.cfg, OnDisk(cache.cfg, cache.disk))
      ensures SameFrom(fs.view, Initially(cache.cfg, cache.disk).view, lay.inodeStart)
    {
      hide Consistent, World, InUse, Meta, J.Puts, Shows, Recent, Ages, QuietGood;
      DurableNow(cache.cfg, lay, cache.origin, cache.acts, cache.es, cache.st, fs.view);
    }
  }
}
