/**
 The block device and the on-disk encoding of integers and of the log header.
 Single-block writes are atomic; everything else about a crash is up to the file system.
 */
module Blocks {
  newtype byte = x: int | 0 <= x < 256

  const BLOCK_SIZE: nat := 512
  const LOG_MAX_SIZE: nat := 63

  type Block = b: seq<byte> | |b| == 512 witness Zeros(512)
  type Disk = map<nat, Block>

  function Zeros(n: nat): (s: seq<byte>)
    ensures |s| == n && forall i :: 0 <= i < n ==> s[i] == 0
  {
    seq(n, i => 0)
  }

  /** A block that was never written reads as zeros. */
  function At(d: Disk, b: nat): Block
  {
    if b in d then d[b] else Zeros(512)
  }

  // Little-endian integers of `n` bytes.

  function Power(n: nat): (p: nat)
    ensures p > 0
  {
    if n == 0 then 1 else 256 * Power(n - 1)
  }

  function Encode(v: nat, n: nat): (s: seq<byte>)
    ensures |s| == n
  {
    if n == 0 then [] else [(v % 256) as byte] + Encode(v / 256, n - 1)
  }

  function Decode(s: seq<byte>): nat
  {
    if s == [] then 0 else (s[0] as nat) + 256 * Decode(s[1..])
  }

  lemma {:induction false} DecodeEncode(v: nat, n: nat)
    requires v < Power(n)
    ensures Decode(Encode(v, n)) == v
  {
    if n > 0 {
      DecodeEncode(v / 256, n - 1);
      assert Encode(v, n)[1..] == Encode(v / 256, n - 1);
    }
  }

  lemma {:induction false} EncodeDecode(s: seq<byte>)
    ensures Decode(s) < Power(|s|) && Encode(Decode(s), |s|) == s
  {
    if s != [] {
      EncodeDecode(s[1..]);
      var v := Decode(s[1..]);
      assert (s[0] as nat + 256 * v) / 256 == v && (s[0] as nat + 256 * v) % 256 == s[0] as nat;
    }
  }

  // The same, written out.

  ghost function Two(s: seq<byte>, at: nat): nat
    requires at + 2 <= |s|
  {
    s[at] as nat + 0x100 * s[at + 1] as nat
  }

  ghost function Four(s: seq<byte>, at: nat): nat
    requires at + 4 <= |s|
  {
    s[at] as nat + 0x100 * s[at + 1] as nat + 0x1_0000 * s[at + 2] as nat + 0x100_0000 * s[at + 3] as nat
  }

  ghost function Eight(s: seq<byte>, at: nat): nat
    requires at + 8 <= |s|
  {
    Four(s, at) + 0x1_0000_0000 * Four(s, at + 4)
  }

  lemma {:induction false} DecodeHead(s: seq<byte>)
    requires s != []
    ensures Decode(s) == s[0] as nat + 0x100 * Decode(s[1..])
  {
  }

  lemma {:induction false} DecodeTwo(s: seq<byte>, at: nat)
    requires at + 2 <= |s|
    ensures Decode(s[at..at + 2]) == Two(s, at)
  {
    var t := s[at..at + 2];
    assert t[0] == s[at] && t[1..] == [s[at + 1]];
    assert Decode([]) == 0;
    DecodeHead(t);
    DecodeHead([s[at + 1]]);
  }

  lemma {:induction false} DecodeTail(s: seq<byte>, at: nat, hi: nat)
    requires at + 2 <= hi <= |s|
    ensures Decode(s[at..hi]) == Two(s, at) + 0x1_0000 * Decode(s[at + 2..hi])
  {
    hide Decode;
    var t := s[at..hi];
    assert t[0] == s[at] && t[1..] == s[at + 1..hi] && s[at + 1..hi][1..] == s[at + 2..hi];
    DecodeHead(t);
    DecodeHead(s[at + 1..hi]);
  }

  lemma {:induction false} DecodeFour(s: seq<byte>, at: nat)
    requires at + 4 <= |s|
    ensures Decode(s[at..at + 4]) == Four(s, at)
  {
    hide Decode;
    DecodeTail(s, at, at + 4);
    DecodeTwo(s, at + 2);
  }

  lemma {:induction false} DecodeEight(s: seq<byte>, at: nat)
    requires at + 8 <= |s|
    ensures Decode(s[at..at + 8]) == Eight(s, at)
  {
    hide Decode;
    DecodeTail(s, at, at + 8);
    DecodeTail(s, at + 2, at + 8);
    DecodeFour(s, at + 4);
  }

  // `LogHeader`: a count and LOG_MAX_SIZE block numbers, each eight bytes.

  datatype Header = Header(n: nat, nos: seq<nat>)

  predicate Wide(v: nat)
  {
    v < 0x1_0000_0000_0000_0000
  }

  predicate Encodable(h: Header)
  {
    |h.nos| == LOG_MAX_SIZE && Wide(h.n) && forall i :: 0 <= i < |h.nos| ==> Wide(h.nos[i])
  }

  function EncodeAll(vs: seq<nat>): (s: seq<byte>)
    ensures |s| == 8 * |vs|
  {
    if vs == [] then [] else Encode(vs[0], 8) + EncodeAll(vs[1..])
  }

  function DecodeAll(s: seq<byte>, k: nat): (vs: seq<nat>)
    requires |s| == 8 * k
    ensures |vs| == k
    decreases k
  {
    if k == 0 then [] else [Decode(s[..8])] + DecodeAll(s[8..], k - 1)
  }

  function EncodeHeader(h: Header): Block
    requires |h.nos| == LOG_MAX_SIZE
  {
    EncodeAll([h.n] + h.nos)
  }

  function DecodeHeader(b: Block): (h: Header)
    ensures |h.nos| == LOG_MAX_SIZE
  {
    var vs := DecodeAll(b, |b| / 8);
    Header(vs[0], vs[1..])
  }

  lemma {:induction false} AllRoundTrip(vs: seq<nat>)
    requires forall i :: 0 <= i < |vs| ==> Wide(vs[i])
    ensures DecodeAll(EncodeAll(vs), |vs|) == vs
  {
    if vs != [] {
      assert Power(8) == 0x1_0000_0000_0000_0000 by {
        assert Power(4) == 0x1_0000_0000;
        assert Power(8) == 256 * (256 * (256 * (256 * Power(4))));
      }
      DecodeEncode(vs[0], 8);
      AllRoundTrip(vs[1..]);
      var s := EncodeAll(vs);
      assert s[..8] == Encode(vs[0], 8) && s[8..] == EncodeAll(vs[1..]);
    }
  }

  /** What `read_header` reads is what `write_header` wrote. */
  lemma {:induction false} HeaderRoundTrip(h: Header)
    requires Encodable(h)
    ensures DecodeHeader(EncodeHeader(h)) == h
  {
    AllRoundTrip([h.n] + h.nos);
  }

  lemma {:induction false} DecodeAllAt(s: seq<byte>, k: nat, i: nat)
    requires |s| == 8 * k && i < k
    ensures DecodeAll(s, k)[i] == Decode(s[8 * i..8 * i + 8])
    decreases k
  {
    hide Decode;
    if i > 0 {
      DecodeAllAt(s[8..], k - 1, i - 1);
      assert s[8..][8 * (i - 1)..8 * (i - 1) + 8] == s[8 * i..8 * i + 8];
    }
  }

  /** On disk the count comes first and then the block numbers, eight bytes each, the low byte first. */
  lemma {:induction false} HeaderLayout(b: Block, i: nat)
    requires i < LOG_MAX_SIZE
    ensures DecodeHeader(b).n == Eight(b, 0) && DecodeHeader(b).nos[i] == Eight(b, 8 + 8 * i)
  {
    hide Decode, Eight, DecodeAll;
    var k := |b| / 8;
    assert |b| == 8 * k;
    DecodeAllAt(b, k, 0);
    DecodeAllAt(b, k, i + 1);
    DecodeEight(b, 0);
    DecodeEight(b, 8 + 8 * i);
  }
}
