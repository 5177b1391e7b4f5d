/**
 How inodes, address tables and the allocation bitmap lie inside 512-byte blocks.
 Every record is read and written through an offset, so each has a law saying that a
 write shows up exactly where it was made.
 */
module FsLayout {
  import opened Bits
  import opened Products
  import opened Blocks

  const NUM_DIRECT: nat := 12
  const NUM_INDIRECT: nat := 128
  const MAX_BLOCKS: nat := 140
  const MAX_BYTES: nat := 71680
  const SWAP_START: nat := 800
  const INODES_PER_BLOCK: nat := 8

  // Overwriting part of a block.

  function Spliced(b: seq<byte>, at: nat, s: seq<byte>): (r: seq<byte>)
    requires at + |s| <= |b|
    ensures |r| == |b| && r[at..at + |s|] == s
    ensures forall i :: 0 <= i < |b| ==> r[i] == if at <= i < at + |s| then s[i - at] else b[i]
  {
    b[..at] + s + b[at + |s|..]
  }

  // Little-endian words.

  function WordAt(b: Block, w: nat, k: nat): nat
    requires w * k + w <= 512
  {
    Decode(b[w * k..w * k + w])
  }

  function WithWord(b: Block, w: nat, k: nat, v: nat): Block
    requires w * k + w <= 512
  {
    Spliced(b, w * k, Encode(v, w))
  }

  lemma {:induction false} Elsewhere(b: seq<byte>, at: nat, s: seq<byte>, lo: nat, hi: nat)
    requires at + |s| <= |b| && lo <= hi <= |b| && (hi <= at || at + |s| <= lo)
    ensures Spliced(b, at, s)[lo..hi] == b[lo..hi]
  {
    var r := Spliced(b, at, s);
    hide Spliced;
    assert forall i :: lo <= i < hi ==> r[i] == b[i];
  }

  lemma {:induction false} Multiples(w: nat, j: nat, k: nat)
    requires j < k
    ensures w * j + w <= w * k
  {
    Grows(w, j + 1, k);
    Distributes(w, j, 1);
  }

  lemma {:induction false} WordLaw(b: Block, w: nat, k: nat, v: nat, j: nat)
    requires w > 0 && w * k + w <= 512 && w * j + w <= 512 && v < Power(w)
    ensures WordAt(WithWord(b, w, k, v), w, j) == if j == k then v else WordAt(b, w, j)
  {
    if j < k {
      Multiples(w, j, k);
    } else if k < j {
      Multiples(w, k, j);
    }
    FieldLaw(b, w * k, w, v, w * j);
  }

  lemma {:induction false} FieldLaw(b: Block, at: nat, w: nat, v: nat, lo: nat)
    requires at + w <= 512 && lo + w <= 512 && v < Power(w) && (lo == at || lo + w <= at || at + w <= lo)
    ensures Decode(Spliced(b, at, Encode(v, w))[lo..lo + w]) == if lo == at then v else Decode(b[lo..lo + w])
  {
    DecodeEncode(v, w);
    hide Decode, Encode, Power;
    if lo != at {
      Elsewhere(b, at, Encode(v, w), lo, lo + w);
    }
  }

  lemma {:induction false} WordZero(w: nat, k: nat)
    requires w * k + w <= 512
    ensures WordAt(Zeros(512), w, k) == 0
  {
    DecodeZeros(Zeros(512)[w * k..w * k + w]);
  }

  lemma {:induction false} DecodeZeros(s: seq<byte>)
    requires forall i :: 0 <= i < |s| ==> s[i] == 0
    ensures Decode(s) == 0
  {
    if s != [] {
      DecodeZeros(s[1..]);
    }
  }

  // Bits of a block.

  lemma {:induction false} PowerIsPow2(n: nat)
    ensures Power(n) == Pow2(8 * n)
  {
    if n > 0 {
      PowerIsPow2(n - 1);
      var m := 8 * (n - 1);
      assert Pow2(m + 2) == 4 * Pow2(m);
      assert Pow2(m + 4) == 4 * Pow2(m + 2);
      assert Pow2(m + 6) == 4 * Pow2(m + 4);
      assert Pow2(m + 8) == 4 * Pow2(m + 6);
    }
  }

  /** `bitmap_get` on a block seen as an array of 64-bit cells. */
  function BitAt(b: Block, j: nat): bool
    requires j < 4096
  {
    Bit(WordAt(b, 8, j / 64), j % 64)
  }

  function WithBitAt(b: Block, j: nat, v: bool): Block
    requires j < 4096
  {
    WithWord(b, 8, j / 64, WithBit(WordAt(b, 8, j / 64), j % 64, v))
  }

  /** `bitmap_set` and `bitmap_clear` change one bit. */
  lemma {:induction false} BitAtLaw(b: Block, j: nat, v: bool, i: nat)
    requires i < 4096 && j < 4096
    ensures BitAt(WithBitAt(b, j, v), i) == if i == j then v else BitAt(b, i)
  {
    hide Bit, WithBit, Encode, Decode, Power, Pow2;
    var n := WordAt(b, 8, j / 64);
    assert n < Power(8) by { EncodeDecode(b[8 * (j / 64)..8 * (j / 64) + 8]); }
    PowerIsPow2(8);
    BitWidth(n, j % 64, v, 64);
    WordLaw(b, 8, j / 64, WithBit(n, j % 64, v), i / 64);
    BitLaw(n, j % 64, v, i % 64);
  }

  lemma {:induction false} BitSplits(a: nat, v: nat, m: nat, i: nat)
    requires a < Pow2(m)
    ensures Bit(a + Pow2(m) * v, i) == if i < m then Bit(a, i) else Bit(v, i - m)
    decreases m
  {
    if m > 0 {
      var p := Pow2(m - 1) * v;
      Associates(2, Pow2(m - 1), v);
      assert (a + 2 * p) / 2 == a / 2 + p && (a + 2 * p) % 2 == a % 2;
      if i > 0 {
        BitSplits(a / 2, v, m - 1, i - 1);
      }
    }
  }

  lemma {:induction false} BitOfDecode(s: seq<byte>, i: nat)
    requires i < 8 * |s|
    ensures Bit(Decode(s), i) == Bit(s[i / 8] as nat, i % 8)
  {
    assert Pow2(4) == 16 && Pow2(8) == 256;
    hide Bit, Pow2;
    BitSplits(s[0] as nat, Decode(s[1..]), 8, i);
    if i >= 8 {
      BitOfDecode(s[1..], i - 8);
    }
  }

  lemma {:induction false} BitIs(n: nat, i: nat)
    ensures Bit(n, i) <==> n / Pow2(i) % 2 == 1
  {
    if i > 0 {
      BitIs(n / 2, i - 1);
      DivideTwice(n, 2, Pow2(i - 1));
    }
  }

  /** On disk, bit `j` of the bitmap is bit `j % 8` of byte `j / 8`. */
  lemma {:induction false} BitLayout(b: Block, j: nat)
    requires j < 4096
    ensures BitAt(b, j) <==> b[j / 8] as nat / Pow2(j % 8) % 2 == 1
  {
    hide Bit, Pow2, Decode;
    var lo := 8 * (j / 64);
    BitOfDecode(b[lo..lo + 8], j % 64);
    assert b[lo..lo + 8][j % 64 / 8] == b[j / 8] && j % 64 % 8 == j % 8;
    BitIs(b[j / 8] as nat, j % 8);
  }

  // Arrays of little-endian fields of one width.

  function Pack(w: nat, vs: seq<nat>): (s: seq<byte>)
    ensures |s| == w * |vs|
  {
    if vs == [] then [] else
      assert w * |vs| == w + w * |vs[1..]|;
      Encode(vs[0], w) + Pack(w, vs[1..])
  }

  function Unpack(w: nat, s: seq<byte>, n: nat): (vs: seq<nat>)
    requires |s| == w * n
    ensures |vs| == n
    decreases n
  {
    if n == 0 then [] else
      assert w * n == w + w * (n - 1);
      [Decode(s[..w])] + Unpack(w, s[w..], n - 1)
  }

  lemma {:induction false} UnpackPack(w: nat, vs: seq<nat>)
    requires forall v <- vs :: v < Power(w)
    ensures Unpack(w, Pack(w, vs), |vs|) == vs
  {
    if vs != [] {
      var s, n := Pack(w, vs), |vs| - 1;
      assert w * |vs| == w + w * n;
      assert s[..w] == Encode(vs[0], w) && s[w..] == Pack(w, vs[1..]);
      assert vs[0] in vs && forall v <- vs[1..] :: v in vs;
      hide Encode, Decode, Power, Pack;
      UnpackPack(w, vs[1..]);
      DecodeEncode(vs[0], w);
      assert vs == [vs[0]] + vs[1..];
    }
  }

  lemma {:induction false} UnpackStep(w: nat, s: seq<byte>, n: nat)
    requires |s| == w * n && n > 0
    ensures w <= |s| && |s[w..]| == w * (n - 1)
            && Unpack(w, s, n) == [Decode(s[..w])] + Unpack(w, s[w..], n - 1)
  {
    Distributes(w, n - 1, 1);
  }

  lemma {:induction false} UnpackAt(w: nat, s: seq<byte>, n: nat, i: nat, at: nat)
    requires |s| == w * n && i < n && at == w * i
    ensures at + w <= |s| && Unpack(w, s, n)[i] == Decode(s[at..at + w])
    decreases n
  {
    hide Decode, Unpack;
    UnpackStep(w, s, n);
    if i > 0 {
      Distributes(w, i - 1, 1);
      UnpackAt(w, s[w..], n - 1, i - 1, at - w);
      assert s[w..][at - w..at] == s[at..at + w];
    }
  }

  // `InodeEntry`: four 16-bit fields, then fourteen 32-bit ones.

  datatype Entry = Entry(kind: nat, major: nat, minor: nat, links: nat, size: nat, addrs: seq<nat>, indirect: nat)

  ghost predicate Storable(e: Entry)
  {
    && |e.addrs| == NUM_DIRECT
    && e.kind < 0x1_0000 && e.major < 0x1_0000 && e.minor < 0x1_0000 && e.links < 0x1_0000
    && e.size < 0x1_0000_0000 && e.indirect < 0x1_0000_0000 && forall a <- e.addrs :: a < 0x1_0000_0000
  }

  function Halves(e: Entry): seq<nat>
  {
    [e.kind, e.major, e.minor, e.links]
  }

  function Words(e: Entry): seq<nat>
  {
    [e.size] + e.addrs + [e.indirect]
  }

  function EntryBytes(e: Entry): (s: seq<byte>)
    requires |e.addrs| == NUM_DIRECT
    ensures |s| == 64
  {
    Pack(2, Halves(e)) + Pack(4, Words(e))
  }

  function DecodeEntry(s: seq<byte>): (e: Entry)
    requires |s| == 64
    ensures |e.addrs| == NUM_DIRECT
  {
    var h := Unpack(2, s[..8], |s[..8]| / 2);
    var w := Unpack(4, s[8..], |s[8..]| / 4);
    Entry(h[0], h[1], h[2], h[3], w[0], w[1..13], w[13])
  }

  lemma {:induction false} EntryRoundTrip(e: Entry)
    requires Storable(e)
    ensures DecodeEntry(EntryBytes(e)) == e
  {
    assert Power(2) == 0x1_0000 && Power(4) == 0x1_0000_0000;
    var h, w, s := Halves(e), Words(e), EntryBytes(e);
    hide Power;
    assert s[..8] == Pack(2, h) && s[8..] == Pack(4, w) by {
      hide Pack;
    }
    UnpackPack(2, h);
    UnpackPack(4, w);
    hide Pack, Unpack;
    assert |s[..8]| / 2 == |h| && |s[8..]| / 4 == |w|;
    assert w[1..13] == e.addrs;
  }

  /** `get_entry`. */
  function EntryAt(b: Block, k: nat): (e: Entry)
    requires k < INODES_PER_BLOCK
    ensures |e.addrs| == NUM_DIRECT
  {
    DecodeEntry(b[64 * k..64 * k + 64])
  }

  function WithEntry(b: Block, k: nat, e: Entry): Block
    requires k < INODES_PER_BLOCK && |e.addrs| == NUM_DIRECT
  {
    Spliced(b, 64 * k, EntryBytes(e))
  }

  lemma {:induction false} HalfAt(s: seq<byte>, i: nat)
    requires |s| == 64 && i < 4
    ensures Unpack(2, s[..8], 4)[i] == Two(s, 2 * i)
  {
    hide Decode, Unpack;
    UnpackAt(2, s[..8], 4, i, 2 * i);
    DecodeTwo(s, 2 * i);
    assert s[..8][2 * i..2 * i + 2] == s[2 * i..2 * i + 2];
  }

  lemma {:induction false} WholeAt(s: seq<byte>, i: nat)
    requires |s| == 64 && i < 14
    ensures Unpack(4, s[8..], 14)[i] == Four(s, 8 + 4 * i)
  {
    hide Decode, Unpack;
    UnpackAt(4, s[8..], 14, i, 4 * i);
    DecodeFour(s, 8 + 4 * i);
    assert s[8..][4 * i..4 * i + 4] == s[8 + 4 * i..8 + 4 * i + 4];
  }

  /** On disk: kind, major, minor and links, two bytes each, then size, twelve addresses and the indirect one. */
  lemma {:induction false} EntryLayout(b: Block, k: nat, i: nat)
    requires k < INODES_PER_BLOCK && i < NUM_DIRECT
    ensures var e, at := EntryAt(b, k), 64 * k;
            && e.kind == Two(b, at) && e.major == Two(b, at + 2) && e.minor == Two(b, at + 4)
            && e.links == Two(b, at + 6) && e.size == Four(b, at + 8) && e.addrs[i] == Four(b, at + 12 + 4 * i)
            && e.indirect == Four(b, at + 60)
  {
    hide Unpack;
    var s := b[64 * k..64 * k + 64];
    HalfAt(s, 0);
    HalfAt(s, 1);
    HalfAt(s, 2);
    HalfAt(s, 3);
    WholeAt(s, 0);
    WholeAt(s, 1 + i);
    WholeAt(s, 13);
  }

  /** Storing an inode changes no other inode of its block. */
  lemma {:induction false} EntryLaw(b: Block, k: nat, e: Entry, j: nat)
    requires k < INODES_PER_BLOCK && j < INODES_PER_BLOCK && Storable(e)
    ensures EntryAt(WithEntry(b, k, e), j) == if j == k then e else EntryAt(b, j)
  {
    EntryRoundTrip(e);
    hide DecodeEntry, EntryBytes;
    if j != k {
      Elsewhere(b, 64 * k, EntryBytes(e), 64 * j, 64 * j + 64);
    }
  }
}
