/**
 `filewrite`: a write cut into pieces, each an operation of its own. A piece always fits its
 reservation; but the loop counts the last piece instead of the sum, so only a write of one
 piece returns.
 */
module FileWrite {
  import opened Bits
  import opened Blocks
  import opened FsLayout
  import opened Files
  import opened Inodes
  import opened WriteCost
  import opened Wal
  import opened CrashWorld
  import opened Volume
  import opened FileServer

  const CHUNK: nat := (OP_MAX_NUM_BLOCKS - 1 - 1 - 2) / 2 * BLOCK_SIZE

  /** The length of the next piece of `n` bytes, after one of length `t`. */
  function Piece(n: int, t: int): int
  {
    if CHUNK < n - t then CHUNK else n - t
  }

  /** The counter after `k` rounds of the loop. */
  function Counter(n: int, k: nat): int
  {
    if k == 0 then 0
    else
      var t := Counter(n, k - 1);
      if t < n then Piece(n, t) else t
  }

  lemma {:induction false} CounterStays(n: int, k: nat)
    requires n > 1536
    ensures Counter(n, k) <= 1536
  {
    if k > 0 {
      CounterStays(n, k - 1);
    }
  }

  /** The loop comes to its end exactly for writes of at most 1536 bytes. */
  lemma {:induction false} ReturnsIff(n: int)
    ensures (exists k: nat :: Counter(n, k) >= n) <==> n <= 1536
  {
    if n > 1536 {
      forall k: nat ensures Counter(n, k) < n {
        CounterStays(n, k);
      }
    } else {
      assert Counter(n, 0) == 0 && Counter(n, if n > 0 then 1 else 0) >= n;
    }
  }

  /** What a piece panics for: a gap, too long a file, or a full disk. */
  ghost predicate PieceHalts(lay: Layout, view: Disk, e: Entry, offset: nat, count: nat)
  {
    if e.kind == DEVICE then e.major != 1
    else offset > e.size || offset + count > 71680 || !Affordable(lay, view, e, offset + count)
  }

  /** A piece never exhausts its reservation. */
  lemma {:induction false} PieceHaltsIff(lay: Layout, view: Disk, e: Entry, k: nat, offset: nat, count: nat)
    requires |e.addrs| == NUM_DIRECT && e.size <= MAX_BYTES && Mapped(view, e, BlocksFor(e.size)) && 0 < count <= 1536
    ensures CannotWrite(lay, view, e, k, offset, count) <==> PieceHalts(lay, view, e, offset, count)
  {
    hide WriteSet, BlocksFor, FreeBlocks, Cost, Filled;
    if offset <= e.size && Affordable(lay, view, e, offset + count) {
      WriteSetSize(lay, view, e, FreeBlocks(lay, view), k, offset, count);
      assert WriteSet(lay, view, e, FreeBlocks(lay, view), k, offset, offset + count) - {} ==
             WriteSet(lay, view, e, FreeBlocks(lay, view), k, offset, offset + count);
    }
  }

  lemma {:induction false} FileMapped(fs: Fs, k: nat)
    requires fs.Sound(0) && k in fs.inodes && k != 0
    ensures Usable(fs, k) && Mapped(fs.view, fs.inodes[k], BlocksFor(fs.inodes[k].size))
  {
    hide Owns, Marked, Table, Mapped;
    AreUsable(fs, k);
  }

  class File {
    const ip: nat
    var off: nat

    constructor (ip: nat, off: nat)
      ensures this.ip == ip && this.off == off
    {
      this.ip, this.off := ip, off;
    }

    /** One round of the loop; `t` is the counter. */
    method Round(server: Server, op: nat, addr: seq<byte>, t: nat) returns (end: Ending, t': nat)
      requires server.Valid() && ip in server.fs.inodes && off < U64 && t < |addr| < U64
      modifies this`off, server.cache, server.fs
      ensures server.Recoverable() && (!end.Halts? ==> server.Valid())
      ensures old(Usable(server.fs, ip))
      ensures end.Waits? <==> LogSize(server.cache.cfg) < OP_MAX_NUM_BLOCKS
      ensures 0 < Piece(|addr|, t) <= |addr|
      ensures !end.Waits? ==>
                (end.Halts? <==>
                  old(PieceHalts(server.lay, server.fs.view, server.fs.inodes[ip], off, Piece(|addr|, t))))
      ensures end.Finished? ==> t' == Piece(|addr|, t) && off == old(off) + t'
      ensures end.Finished? && old(server.fs.inodes[ip].kind) != DEVICE ==>
                && Usable(server.fs, ip) && t' <= |addr|
                && Content(server.fs.view, server.fs.inodes[ip]) ==
                   Overwritten(old(Content(server.fs.view, server.fs.inodes[ip])), old(off), addr[..t'])
    {
      hide CannotWrite, Content, Overwritten, Consistent, InUse, Others, PieceHalts, Mapped, Table, Owns, Marked;
      t' := Piece(|addr|, t);
      FileMapped(server.fs, ip);
      PieceHaltsIff(server.lay, server.fs.view, server.fs.inodes[ip], ip, off, t');
      hide World;
      var r;
      end, r := server.Write(op, ip, addr[..t'], off);
      if end.Finished? {
        off := off + t';
      }
    }
  }
}
