/**
 `copyout`: bytes written through the page table. Frames may be mapped at several pages, as
 the zero page is, so the result is stated for every frame and every offset.
 */
module CopyOut {
  import opened Bits
  import opened Pages
  import opened PageTable
  import opened PageDir

  const USER_DATA: nat := 1607   // PTE_USER | PTE_NORMAL | PTE_PAGE
  type Frames = map<nat, seq<int>>   // user memory by physical address

  /** What a user program reads at `v`; -1 if nothing is mapped there. */
  ghost function Byte(mem: Mem, root: nat, frames: Frames, v: nat): int
  {
    var e := Value(mem, root, v, 0);
    if Present(e) && Address(e) in frames && |frames[Address(e)]| == PAGE then frames[Address(e)][v % PAGE] else -1
  }

  ghost predicate Mapped(mem: Mem, root: nat, v: nat)
  {
    Present(Value(mem, root, v, 0))
  }

  ghost function FrameOf(mem: Mem, root: nat, v: nat): nat
  {
    Address(Value(mem, root, v, 0))
  }

  // The same for byte `i` of a copy to `va`.

  ghost predicate There(mem: Mem, root: nat, va: nat, i: nat)
  {
    Mapped(mem, root, va + i)
  }

  ghost function FrameAt(mem: Mem, root: nat, va: nat, i: nat): nat
  {
    FrameOf(mem, root, va + i)
  }

  ghost function ByteAt(mem: Mem, root: nat, frames: Frames, va: nat, i: nat): int
  {
    Byte(mem, root, frames, va + i)
  }

  ghost predicate FramesOk(frames: Frames)
  {
    forall pa <- frames :: |frames[pa]| == PAGE
  }

  /** Mapped frames exist. */
  ghost predicate Backed(mem: Mem, root: nat, frames: Frames)
  {
    FramesOk(frames) && forall v: nat | Mapped(mem, root, v) :: FrameOf(mem, root, v) in frames
  }

  /** The frames to hand out exist, are all different, and are mapped nowhere. */
  ghost predicate Spare(mem: Mem, root: nat, frames: Frames, users: seq<nat>)
  {
    && (forall i | 0 <= i < |users| :: Frame(users[i]) && users[i] in frames)
    && (forall i, j | 0 <= i < j < |users| :: users[i] != users[j])
    && (forall v: nat | Mapped(mem, root, v) :: FrameOf(mem, root, v) !in users)
  }

  lemma {:induction false} UserEntry(pa: nat)
    requires Frame(pa)
    ensures MapEntry(pa, USER_DATA) == pa + USER_DATA && Present(pa + USER_DATA) && Address(pa + USER_DATA) == pa
  {
    LowFlags(pa, USER_DATA);
  }

  /** All addresses of a page have one entry. */
  lemma {:induction false} PageHasOneEntry(mem: Mem, t: nat, va: nat, v: nat, l: nat)
    requires l <= 3 && PageNo(v) == PageNo(va)
    ensures Value(mem, t, v, l) == Value(mem, t, va, l)
    decreases 3 - l
  {
    SameDigits(va, v);
    hide Index, PageNo;
    if t in mem && |mem[t]| == ENTRIES && l < 3 && Present(mem[t][Index(va, l)]) {
      PageHasOneEntry(mem, Address(mem[t][Index(va, l)]), va, v, l + 1);
    }
  }

  /** A present entry lies in an existing table. */
  lemma {:induction false} PresentWalks(mem: Mem, at: map<nat, Place>, root: nat, va: nat)
    requires Tree(mem, at, root) && Present(Value(mem, root, va, 0))
    ensures Walk(mem, root, va, 0) != 0
  {
    hide TableOk, Index;
    if root in mem {
      TableFacts(mem, at, root, root);
      NoZero(mem, at, root);
      ValueIsLookup(mem, at, root, root, va, 0);
    }
  }

  // Writing a frame.

  /** Overwrite part of a frame. */
  function Written(f: seq<int>, at: nat, s: seq<int>): (r: seq<int>)
    requires at + |s| <= |f|
    ensures |r| == |f| && forall i | 0 <= i < |f| :: r[i] == if at <= i < at + |s| then s[i - at] else f[i]
  {
    f[..at] + s + f[at + |s|..]
  }

  /** A write through one page shows at exactly the addresses that have the same frame and an offset in its range. */
  lemma {:induction false} WriteShows(mem: Mem, root: nat, frames: Frames, va: nat, s: seq<int>, v: nat)
    requires Backed(mem, root, frames) && Mapped(mem, root, va) && va % PAGE + |s| <= PAGE
    ensures var pa := FrameOf(mem, root, va);
            && pa in frames && |frames[pa]| == PAGE
            && Byte(mem, root, frames[pa := Written(frames[pa], va % PAGE, s)], v) ==
               if Mapped(mem, root, v) && FrameOf(mem, root, v) == pa && va % PAGE <= v % PAGE < va % PAGE + |s|
               then s[v % PAGE - va % PAGE] else Byte(mem, root, frames, v)
  {
    hide Value, Address;
  }

  // The last byte copied to a place.

  /** Byte `i` of a copy to `va` goes to offset `o` of frame `pa`. */
  ghost predicate Hits(mem: Mem, root: nat, va: nat, i: nat, pa: nat, o: nat)
  {
    There(mem, root, va, i) && FrameAt(mem, root, va, i) == pa && (va + i) % PAGE == o
  }

  /** The last of the first `n` bytes that goes there, or -1. */
  ghost function Last(mem: Mem, root: nat, va: nat, n: nat, pa: nat, o: nat): (k: int)
    ensures -1 <= k < n && (k >= 0 ==> Hits(mem, root, va, k, pa, o))
            && forall i | k < i < n :: !Hits(mem, root, va, i, pa, o)
  {
    if n == 0 then -1 else if Hits(mem, root, va, n - 1, pa, o) then n - 1 else Last(mem, root, va, n - 1, pa, o)
  }

  lemma {:induction false} LastIs(mem: Mem, root: nat, va: nat, n: nat, pa: nat, o: nat, k: int)
    requires -1 <= k < n && (k >= 0 ==> Hits(mem, root, va, k, pa, o))
             && forall i | k < i < n :: !Hits(mem, root, va, i, pa, o)
    ensures Last(mem, root, va, n, pa, o) == k
  {
    hide Hits, Last;
  }

  /** Entries of the bytes already copied did not change. */
  lemma {:induction false} LastSame(mem: Mem, root: nat, mem': Mem, root': nat, va: nat, n: nat, pa: nat, o: nat)
    requires forall i | 0 <= i < n :: Hits(mem', root', va, i, pa, o) <==> Hits(mem, root, va, i, pa, o)
    ensures Last(mem', root', va, n, pa, o) == Last(mem, root, va, n, pa, o)
  {
    hide Hits;
    if n > 0 {
      LastSame(mem, root, mem', root', va, n - 1, pa, o);
    }
  }

  /** Every byte of memory is the last one copied there, or what it was. */
  ghost predicate Copied(mem: Mem, root: nat, va: nat, src: seq<int>, was: Frames, frames: Frames)
  {
    && FramesOk(was) && FramesOk(frames) && frames.Keys == was.Keys
    && forall pa <- frames, o | 0 <= o < PAGE ::
         frames[pa][o] == var k := Last(mem, root, va, |src|, pa, o); if k < 0 then was[pa][o] else src[k]
  }

  lemma {:induction false} NothingCopied(mem: Mem, root: nat, va: nat, frames: Frames)
    requires Backed(mem, root, frames)
    ensures Copied(mem, root, va, [], frames, frames) && AllThere(mem, root, va, 0)
  {
  }

  /** One more page. */
  lemma {:induction false} CopyMore(mem: Mem, root: nat, va: nat, src: seq<int>, s: seq<int>, was: Frames,
                                    frames: Frames, pa: nat)
    requires Copied(mem, root, va, src, was, frames) && s != [] && (va + |src|) % PAGE + |s| <= PAGE && pa in frames
    requires forall i: nat | |src| <= i < |src| + |s| :: There(mem, root, va, i) && FrameAt(mem, root, va, i) == pa
    ensures |frames[pa]| == PAGE
    ensures Copied(mem, root, va, src + s, was, frames[pa := Written(frames[pa], (va + |src|) % PAGE, s)])
  {
    hide There, FrameAt, Last, Written;
    var at, n := (va + |src|) % PAGE, |src|;
    var frames' := frames[pa := Written(frames[pa], at, s)];
    forall q <- frames', o: nat | o < PAGE
      ensures frames'[q][o] == var k := Last(mem, root, va, |src + s|, q, o); if k < 0 then was[q][o] else (src + s)[k]
    {
      var k := Last(mem, root, va, n, q, o);
      assert frames[q][o] == if k < 0 then was[q][o] else src[k];
      if q == pa && at <= o < at + |s| {
        LastInPage(mem, root, va, n, |s|, pa, o);
      } else {
        LastElsewhere(mem, root, va, n, |s|, pa, q, o);
      }
    }
  }

  lemma {:induction false} LastElsewhere(mem: Mem, root: nat, va: nat, n: nat, m: nat, pa: nat, q: nat, o: nat)
    requires (va + n) % PAGE + m <= PAGE && !(q == pa && (va + n) % PAGE <= o < (va + n) % PAGE + m)
    requires forall i: nat | n <= i < n + m :: There(mem, root, va, i) && FrameAt(mem, root, va, i) == pa
    ensures Last(mem, root, va, n + m, q, o) == Last(mem, root, va, n, q, o)
  {
    hide There, FrameAt, Last;
    var k := Last(mem, root, va, n, q, o);
    forall i: nat | k < i < n + m ensures !Hits(mem, root, va, i, q, o) {
      if i >= n {
        InPage(va + n, i - n, m);
        assert (va + i) % PAGE == (va + n) % PAGE + (i - n);
      }
    }
    LastIs(mem, root, va, n + m, q, o, k);
  }

  lemma {:induction false} InPage(off: nat, j: nat, m: nat)
    requires off % PAGE + m <= PAGE && j < m
    ensures (off + j) % PAGE == off % PAGE + j
  {
  }

  lemma {:induction false} LastInPage(mem: Mem, root: nat, va: nat, n: nat, m: nat, pa: nat, o: nat)
    requires (va + n) % PAGE + m <= PAGE && (va + n) % PAGE <= o < (va + n) % PAGE + m
    requires forall i: nat | n <= i < n + m :: There(mem, root, va, i) && FrameAt(mem, root, va, i) == pa
    ensures Last(mem, root, va, n + m, pa, o) == n + (o - (va + n) % PAGE)
  {
    hide There, FrameAt, Last;
    var k := n + (o - (va + n) % PAGE);
    forall i: nat | n <= i < n + m ensures Hits(mem, root, va, i, pa, o) <==> i == k {
      InPage(va + n, i - n, m);
      assert (va + i) % PAGE == (va + n) % PAGE + (i - n);
    }
    LastIs(mem, root, va, n + m, pa, o, k);
  }

  // Reading back.

  /** Bytes `i` and `j` of the copy go to one place. */
  ghost predicate Meet(mem: Mem, root: nat, va: nat, i: nat, j: nat)
  {
    && There(mem, root, va, i) && There(mem, root, va, j) && FrameAt(mem, root, va, i) == FrameAt(mem, root, va, j)
    && (va + i) % PAGE == (va + j) % PAGE
  }

  /** No two bytes of the copy that differ go to one place. The pages need not be mapped yet. */
  ghost predicate Coherent(mem: Mem, root: nat, va: nat, src: seq<int>)
  {
    forall i: nat, j: nat | i < j < |src| && Meet(mem, root, va, i, j) :: src[i] == src[j]
  }

  ghost predicate AllThere(mem: Mem, root: nat, va: nat, n: nat)
  {
    forall i: nat | i < n :: There(mem, root, va, i)
  }

  ghost predicate ReadsBack(mem: Mem, root: nat, frames: Frames, va: nat, src: seq<int>)
  {
    forall i: nat | i < |src| :: ByteAt(mem, root, frames, va, i) == src[i]
  }

  /** Read-back holds exactly for coherent copies. */
  lemma {:induction false} ReadBack(mem: Mem, root: nat, va: nat, src: seq<int>, was: Frames, frames: Frames)
    requires Copied(mem, root, va, src, was, frames) && Backed(mem, root, frames) && AllThere(mem, root, va, |src|)
    ensures ReadsBack(mem, root, frames, va, src) <==> Coherent(mem, root, va, src)
  {
    forall i: nat | i < |src|
      ensures var k := Last(mem, root, va, |src|, FrameAt(mem, root, va, i), (va + i) % PAGE);
              && i <= k < |src| && (i < k ==> Meet(mem, root, va, i, k)) && ByteAt(mem, root, frames, va, i) == src[k]
    {
      ReadsLast(mem, root, va, src, was, frames, i);
    }
    hide *;
    ReadBackIff(mem, root, va, src, frames);
  }

  lemma {:induction false} ReadsLast(mem: Mem, root: nat, va: nat, src: seq<int>, was: Frames, frames: Frames, i: nat)
    requires Copied(mem, root, va, src, was, frames) && Backed(mem, root, frames) && There(mem, root, va, i)
             && i < |src|
    ensures var k := Last(mem, root, va, |src|, FrameAt(mem, root, va, i), (va + i) % PAGE);
            && i <= k < |src| && (i < k ==> Meet(mem, root, va, i, k)) && ByteAt(mem, root, frames, va, i) == src[k]
  {
    hide Last, Value, Address;
    ByteIs(mem, root, frames, va + i);
    assert Hits(mem, root, va, i, FrameAt(mem, root, va, i), (va + i) % PAGE);
  }

  lemma {:induction false} ReadBackIff(mem: Mem, root: nat, va: nat, src: seq<int>, frames: Frames)
    requires forall i: nat | i < |src| ::
               var k := Last(mem, root, va, |src|, FrameAt(mem, root, va, i), (va + i) % PAGE);
               && i <= k < |src| && (i < k ==> Meet(mem, root, va, i, k)) && ByteAt(mem, root, frames, va, i) == src[k]
    ensures ReadsBack(mem, root, frames, va, src) <==> Coherent(mem, root, va, src)
  {
    hide Last, Byte, ByteAt;
    if ReadsBack(mem, root, frames, va, src) {
      forall i: nat, j: nat | i < j < |src| && Meet(mem, root, va, i, j) ensures src[i] == src[j] {
        assert ByteAt(mem, root, frames, va, i) == src[i] && ByteAt(mem, root, frames, va, j) == src[j];
      }
    }
  }

  lemma {:induction false} ByteIs(mem: Mem, root: nat, frames: Frames, v: nat)
    requires Backed(mem, root, frames) && Mapped(mem, root, v)
    ensures var pa := FrameOf(mem, root, v); pa in frames && |frames[pa]| == PAGE
                                             && Byte(mem, root, frames, v) == frames[pa][v % PAGE]
  {
    hide Value, Address;
  }

  /** In particular if the pages of the range have different frames. */
  lemma {:induction false} DifferentFramesCohere(mem: Mem, root: nat, va: nat, src: seq<int>)
    requires forall i: nat, j: nat | i < j < |src| && (va + i) / PAGE != (va + j) / PAGE && There(mem, root, va, i)
             && There(mem, root, va, j) ::
               FrameAt(mem, root, va, i) != FrameAt(mem, root, va, j)
    ensures Coherent(mem, root, va, src)
  {
    hide There, FrameAt;
  }

  // What touching pages changes.

  /** A byte of the copy lies in the page of `v`. */
  ghost predicate Touched(va: nat, n: nat, v: nat)
  {
    exists i: nat :: i < n && SamePage(va, i, v)
  }

  ghost predicate SamePage(va: nat, i: nat, v: nat)
  {
    PageNo(va + i) == PageNo(v)
  }

  ghost predicate New(mem: Mem, root: nat, mem': Mem, root': nat, v: nat)
  {
    Mapped(mem', root', v) && !Mapped(mem, root, v)
  }

  /** Pages touched so far have a frame of their own if they had none; nothing else is mapped anew or otherwise. */
  ghost predicate Grown(mem: Mem, root: nat, users: seq<nat>, mem': Mem, root': nat, users': seq<nat>, va: nat, n: nat)
  {
    && (forall v: nat | Mapped(mem, root, v) :: Value(mem', root', v, 0) == Value(mem, root, v, 0))
    && (forall v: nat | New(mem, root, mem', root', v) ::
        FrameOf(mem', root', v) in users && FrameOf(mem', root', v) !in users')
    && (forall v: nat, w: nat | New(mem, root, mem', root', v) && New(mem, root, mem', root', w)
      && FrameOf(mem', root', v) == FrameOf(mem', root', w) :: PageNo(v) == PageNo(w))
    && (forall v: nat | !Touched(va, n, v) :: Value(mem', root', v, 0) == Value(mem, root, v, 0))
    && forall u <- users' :: u in users
  }

  lemma {:induction false} GrownStart(mem: Mem, root: nat, users: seq<nat>, va: nat)
    ensures Grown(mem, root, users, mem, root, users, va, 0)
  {
  }

  /** Touching the page of byte `n`: its entry is as it was, or it gets the next frame. */
  ghost predicate Touches(mem: Mem, root: nat, users: seq<nat>, mem': Mem, root': nat, users': seq<nat>, w: nat)
  {
    if users' == users then forall v: nat :: Value(mem', root', v, 0) == Value(mem, root, v, 0)
    else
      && users != [] && users' == users[1..] && !Mapped(mem, root, w)
      && forall v: nat :: Value(mem', root', v, 0) == if PageNo(v) == PageNo(w) then users[0] + USER_DATA
                            else Value(mem, root, v, 0)
  }

  lemma {:induction false} TouchesSpare(mem: Mem, root: nat, frames: Frames, users: seq<nat>, mem': Mem, root': nat,
                                        users': seq<nat>, w: nat)
    requires Backed(mem, root, frames) && Spare(mem, root, frames, users)
             && Touches(mem, root, users, mem', root', users', w)
    ensures Backed(mem', root', frames) && Spare(mem', root', frames, users')
  {
    if users' != users {
      UserEntry(users[0]);
    }
    hide Value, PageNo, Address, FramesOk;
    forall v: nat | Mapped(mem', root', v)
      ensures FrameOf(mem', root', v) in frames && FrameOf(mem', root', v) !in users'
    {
      if users' == users || PageNo(v) != PageNo(w) {
        assert Mapped(mem, root, v) && FrameOf(mem', root', v) == FrameOf(mem, root, v);
      }
    }
  }

  lemma {:induction false} GrownMore(mem: Mem, root: nat, users: seq<nat>, mem1: Mem, root1: nat, users1: seq<nat>,
                                     mem2: Mem, root2: nat, users2: seq<nat>, frames: Frames, va: nat, n: nat, m: nat)
    requires Grown(mem, root, users, mem1, root1, users1, va, n)
             && Touches(mem1, root1, users1, mem2, root2, users2, va + n) && m > 0
    requires Spare(mem1, root1, frames, users1)
    ensures Grown(mem, root, users, mem2, root2, users2, va, n + m)
  {
    hide Grown, Value, PageNo, Address, Touched;
    TouchedMore(va, n, m);
    forall v: nat | PageNo(v) == PageNo(va + n) ensures Value(mem1, root1, v, 0) == Value(mem1, root1, va + n, 0) {
      PageHasOneEntry(mem1, root1, va + n, v, 0);
    }
    if users2 == users1 {
      GrownSame(mem, root, users, mem1, root1, users1, mem2, root2, va, n, n + m);
    } else {
      UserEntry(users1[0]);
      GrownNew(mem, root, users, mem1, root1, users1, mem2, root2, users2, frames, va, n, n + m);
    }
  }

  lemma {:induction false} TouchedMore(va: nat, n: nat, m: nat)
    requires m > 0
    ensures forall v: nat ::
              (Touched(va, n, v) ==> Touched(va, n + m, v)) && (PageNo(v) == PageNo(va + n) ==> Touched(va, n + m, v))
  {
    hide PageNo;
    forall v: nat | PageNo(v) == PageNo(va + n) ensures Touched(va, n + m, v) {
      assert SamePage(va, n, v);
    }
  }

  lemma {:induction false} GrownSame(mem: Mem, root: nat, users: seq<nat>, mem1: Mem, root1: nat, users1: seq<nat>,
                                     mem2: Mem, root2: nat, va: nat, n: nat, n': nat)
    requires Grown(mem, root, users, mem1, root1, users1, va, n)
             && (forall v: nat :: Value(mem2, root2, v, 0) == Value(mem1, root1, v, 0))
    requires forall v: nat :: Touched(va, n, v) ==> Touched(va, n', v)
    ensures Grown(mem, root, users, mem2, root2, users1, va, n')
  {
    hide Value, PageNo, Address, Touched;
    assert forall v: nat :: New(mem, root, mem2, root2, v) <==> New(mem, root, mem1, root1, v);
  }

  lemma {:induction false} GrownNew(mem: Mem, root: nat, users: seq<nat>, mem1: Mem, root1: nat, users1: seq<nat>,
                                    mem2: Mem, root2: nat, users2: seq<nat>, frames: Frames, va: nat, n: nat, n': nat)
    requires Grown(mem, root, users, mem1, root1, users1, va, n) && users1 != [] && users2 == users1[1..]
             && !Mapped(mem1, root1, va + n)
    requires forall v: nat ::
               Value(mem2, root2, v, 0) == if PageNo(v) == PageNo(va + n) then users1[0] + USER_DATA
                 else Value(mem1, root1, v, 0)
    requires Spare(mem1, root1, frames, users1) && Present(users1[0] + USER_DATA)
             && Address(users1[0] + USER_DATA) == users1[0]
    requires forall v: nat | PageNo(v) == PageNo(va + n) :: Value(mem1, root1, v, 0) == Value(mem1, root1, va + n, 0)
    requires forall v: nat ::
               (Touched(va, n, v) ==> Touched(va, n', v)) && (PageNo(v) == PageNo(va + n) ==> Touched(va, n', v))
    ensures Grown(mem, root, users, mem2, root2, users2, va, n')
  {
    hide Value, PageNo, Address, Touched;
    var u := users1[0];
    assert u !in users2 && u in users1 && users1 == [u] + users2;
    forall v: nat ensures Mapped(mem, root, v) ==> PageNo(v) != PageNo(va + n) {
      if Mapped(mem, root, v) {
        assert Mapped(mem1, root1, v);
      }
    }
    forall v: nat ensures New(mem, root, mem2, root2, v) <==>
        PageNo(v) == PageNo(va + n) || New(mem, root, mem1, root1, v)
    {
      if PageNo(v) == PageNo(va + n) {
        assert Mapped(mem2, root2, v) && !Mapped(mem, root, v);
      }
    }
    forall v: nat | New(mem, root, mem2, root2, v)
      ensures FrameOf(mem2, root2, v) == if PageNo(v) == PageNo(va + n) then u else FrameOf(mem1, root1, v)
    {
    }
  }

  // What the caller can know before.

  /** Bytes `i` and `j` will go to one place: they lie in one page, or their pages already share a frame. */
  ghost predicate WillMeet(mem: Mem, root: nat, va: nat, i: nat, j: nat)
  {
    && (va + i) % PAGE == (va + j) % PAGE
    && (SamePage(va, i, va + j)
      || (There(mem, root, va, i) && There(mem, root, va, j) && FrameAt(mem, root, va, i) == FrameAt(mem, root, va, j)))
  }

  /** No two bytes that differ will go to one place. */
  ghost predicate WillCohere(mem: Mem, root: nat, va: nat, src: seq<int>)
  {
    forall i: nat, j: nat | i < j < |src| && WillMeet(mem, root, va, i, j) :: src[i] == src[j]
  }

  lemma {:induction false} MeetBefore(mem: Mem, root: nat, frames: Frames, users: seq<nat>, mem': Mem, root': nat,
                                      users': seq<nat>, va: nat, n: nat, i: nat, j: nat)
    requires Grown(mem, root, users, mem', root', users', va, n) && Spare(mem, root, frames, users)
    requires There(mem', root', va, i) && There(mem', root', va, j)
    ensures Meet(mem', root', va, i, j) <==> WillMeet(mem, root, va, i, j)
  {
    hide Value, PageNo, Address, Touched;
    if SamePage(va, i, va + j) {
      PageHasOneEntry(mem', root', va + j, va + i, 0);
    }
    var v, w := va + i, va + j;
    assert !Mapped(mem, root, v) ==> New(mem, root, mem', root', v);
    assert !Mapped(mem, root, w) ==> New(mem, root, mem', root', w);
  }

  /** Read-back holds exactly if the bytes will cohere. */
  lemma {:induction false} CohereBefore(mem: Mem, root: nat, frames: Frames, users: seq<nat>, mem': Mem, root': nat,
                                        users': seq<nat>, va: nat, src: seq<int>)
    requires Grown(mem, root, users, mem', root', users', va, |src|) && Spare(mem, root, frames, users)
             && AllThere(mem', root', va, |src|)
    ensures Coherent(mem', root', va, src) <==> WillCohere(mem, root, va, src)
  {
    hide Grown, Spare, There, Meet, WillMeet;
    forall i: nat, j: nat | i < j < |src| ensures Meet(mem', root', va, i, j) <==> WillMeet(mem, root, va, i, j) {
      MeetBefore(mem, root, frames, users, mem', root', users', va, |src|, i, j);
    }
  }

  /** An address mapped before reads the last byte copied to its place, or what it read before. */
  lemma {:induction false} OthersRead(mem: Mem, root: nat, was: Frames, users: seq<nat>, mem': Mem, root': nat,
                                      users': seq<nat>, va: nat, src: seq<int>, frames: Frames, v: nat)
    requires Grown(mem, root, users, mem', root', users', va, |src|) && Spare(mem, root, was, users)
             && Backed(mem, root, was)
    requires Copied(mem', root', va, src, was, frames) && Mapped(mem, root, v)
    ensures Byte(mem', root', frames, v) ==
            var k := Last(mem, root, va, |src|, FrameOf(mem, root, v), v % PAGE);
                  if k < 0 then Byte(mem, root, was, v) else src[k]
  {
    hide Value, PageNo, Address, Touched, Last;
    var pa, o := FrameOf(mem, root, v), v % PAGE;
    ByteIs(mem, root, was, v);
    forall i: nat | i < |src| ensures Hits(mem', root', va, i, pa, o) <==> Hits(mem, root, va, i, pa, o) {
      assert New(mem, root, mem', root', va + i) ==> FrameOf(mem', root', va + i) in users;
      assert Mapped(mem, root, va + i) ==> Value(mem', root', va + i, 0) == Value(mem, root, va + i, 0);
    }
    LastSame(mem, root, mem', root', va, |src|, pa, o);
    assert Value(mem', root', v, 0) == Value(mem, root, v, 0) && pa in frames;
  }

  /** How many pages `n` bytes from `va` on lie in. */
  function PageCount(va: nat, n: nat): nat
  {
    if n == 0 then 0 else (va + n - 1) / PAGE - va / PAGE + 1
  }

  lemma {:induction false} FewerPages(va: nat, m: nat, n: nat)
    requires m <= n
    ensures PageCount(va, m) <= PageCount(va, n)
  {
  }

  class Space {
    const pd: Pgdir
    var frames: Frames       // user memory
    var users: seq<nat>      // what `alloc_page_for_user` hands out

    constructor (pd: Pgdir, frames: Frames, users: seq<nat>)
      requires pd.Valid() && Backed(pd.mem, pd.root, frames) && Spare(pd.mem, pd.root, frames, users)
      ensures Valid() && this.pd == pd && this.frames == frames && this.users == users
    {
      this.pd, this.users, this.frames := pd, users, frames;
    }

    ghost predicate Valid()
      reads this, pd
    {
      pd.Valid() && Backed(pd.mem, pd.root, frames) && Spare(pd.mem, pd.root, frames, users)
    }

    /** Map a fresh frame where there is none; false if memory is exhausted. */
    method Touch(va: nat) returns (ok: bool)
      requires Valid()
      modifies this`users, pd
      ensures Valid() && Touches(old(pd.mem), old(pd.root), old(users), pd.mem, pd.root, users, va)
      ensures ok ==> Mapped(pd.mem, pd.root, va) && pd.root != 0
      ensures |users| + 1 >= |old(users)| && |pd.pool| + (if old(pd.root) == 0 then 4 else 3) >= |old(pd.pool)|
      ensures !ok ==> |old(pd.pool)| < (if old(pd.root) == 0 then 4 else 3) || old(users) == []
    {
      hide Value, PageNo, Address, Backed, Spare, PageTable.Tree, PoolOk, Walk, Missing, Taken, Index;
      var t := pd.GetPte(va, true);
      forall v: nat ensures Value(pd.mem, pd.root, v, 0) == Value(old(pd.mem), old(pd.root), v, 0) {
        assert pd.Entry(v) == old(pd.Entry(v));
      }
      TouchesSpare(old(pd.mem), old(pd.root), frames, users, pd.mem, pd.root, users, va);
      if t == 0 {
        return false;
      }
      ok := true;
      if !Present(pd.mem[t][Index(va, 3)]) {
        if users == [] {
          return false;
        }
        ghost var mem1, root1 := pd.mem, pd.root;
        var pa := users[0];
        SpareFrame(pd.mem, pd.root, frames, users);
        UserEntry(pa);
        ok := pd.Vmmap(va, pa, USER_DATA);
        users := users[1..];
        TouchesSpare(old(pd.mem), old(pd.root), frames, old(users), pd.mem, pd.root, users, va);
      }
    }

    /** One round of `copyout`. */
    method CopyPage(va: nat, s: seq<int>, ghost va0: nat, ghost src: seq<int>, ghost was: Frames) returns (ok: bool)
      requires Valid() && va % PAGE + |s| <= PAGE && s != [] && va == va0 + |src|
      requires AllThere(pd.mem, pd.root, va0, |src|) && Copied(pd.mem, pd.root, va0, src, was, frames)
      modifies this, pd
      ensures Valid() && Touches(old(pd.mem), old(pd.root), old(users), pd.mem, pd.root, users, va)
      ensures ok ==> pd.root != 0 && AllThere(pd.mem, pd.root, va0, |src + s|)
                     && Copied(pd.mem, pd.root, va0, src + s, was, frames)
      ensures |users| + 1 >= |old(users)| && |pd.pool| + (if old(pd.root) == 0 then 4 else 3) >= |old(pd.pool)|
      ensures !ok ==> |old(pd.pool)| < (if old(pd.root) == 0 then 4 else 3) || old(users) == []
    {
      hide Value, PageNo, Address, Backed, Spare, PageTable.Tree, PoolOk, Walk, Missing, Taken, Copied, Touches,
        AllThere;
      ok := Touch(va);
      if ok {
        TouchedThere(old(pd.mem), old(pd.root), old(users), pd.mem, pd.root, users, va0, src, s, was, frames);
        ghost var mem1, root1 := pd.mem, pd.root;
        var t := pd.GetPte(va, false);
        PresentWalks(pd.mem, pd.at, pd.root, va);
        var pa := Address(pd.mem[t][Index(va, 3)]);
        ByteIs(pd.mem, pd.root, frames, va);
        CopyMore(pd.mem, pd.root, va0, src, s, was, frames, pa);
        WriteBacked(pd.mem, pd.root, frames, users, pa, Written(frames[pa], va % PAGE, s));
        frames := frames[pa := Written(frames[pa], va % PAGE, s)];
      }
    }

    /** `copyout`; false if memory is exhausted. Of a range that wraps around, at most the first page is copied. */
    method CopyOut(va: nat, src: seq<int>) returns (ok: bool)
      requires Valid() && va < U64 && |src| < U64
      modifies this, pd
      ensures Valid()
      ensures ok ==> var s := Effective(va, src);
                     && (ReadsBack(pd.mem, pd.root, frames, va, s) <==> WillCohere(old(pd.mem), old(pd.root), va, s))
                     && AllThere(pd.mem, pd.root, va, |s|)
                     && (forall v: nat | !Touched(va, |s|, v) :: pd.Entry(v) == old(pd.Entry(v)))
                     && (forall v: nat | Mapped(old(pd.mem), old(pd.root), v) ::
                           && pd.Entry(v) == old(pd.Entry(v))
                           && Byte(pd.mem, pd.root, frames, v) ==
                               After(old(pd.mem), old(pd.root), old(frames), va, s, v))
      ensures !ok ==> |old(pd.pool)| < 3 * PageCount(va, |src|) + 1 || |old(users)| < PageCount(va, |src|)
    {
      hide Value, PageNo, Address, Backed, Spare, PageTable.Tree, PoolOk, Walk, Copied, Touches, AllThere, Grown, Last,
        Byte, Touched, WillCohere, Coherent;
      var s := Effective(va, src);
      FewerPages(va, |s|, |src|);
      ghost var mem0, root0, users0 := pd.mem, pd.root, users;
      NothingCopied(pd.mem, pd.root, va, frames);
      GrownStart(mem0, root0, users0, va);
      var done: nat, p: nat := 0, 0;
      assert s[..0] == [];
      while done < |s|
        invariant done <= |s| && (0 < done < |s| ==> (va + done) % PAGE == 0) && p == PageCount(va, done)
        invariant Valid() && AllThere(pd.mem, pd.root, va, done)
                  && Copied(pd.mem, pd.root, va, s[..done], old(frames), frames)
        invariant Grown(mem0, root0, users0, pd.mem, pd.root, users, va, done)
        invariant |users| + p >= |users0| && (p > 0 ==> pd.root != 0) && (root0 != 0 ==> pd.root != 0)
        invariant |pd.pool| + 3 * p + (if root0 == 0 && p > 0 then 1 else 0) >= |old(pd.pool)|
      {
        var off := va + done;
        var m := if |s| - done < PAGE - off % PAGE then |s| - done else PAGE - off % PAGE;
        ghost var mem1, root1, users1, frames1 := pd.mem, pd.root, users, frames;
        NextPage(va, done, m, |s|);
        assert s[..done] + s[done..done + m] == s[..done + m];
        ok := CopyPage(off, s[done..done + m], va, s[..done], old(frames));
        if !ok {
          return;
        }
        GrownMore(mem0, root0, users0, mem1, root1, users1, pd.mem, pd.root, users, frames1, va, done, m);
        done, p := done + m, p + 1;
      }
      ok := true;
      assert s[..done] == s;
      Finished(mem0, root0, old(frames), users0, pd.mem, pd.root, users, frames, va, s);
    }
  }

  /**
   How many of `n` bytes are copied: all, unless the range wraps around. Then the end lies
   before the start, and only if it lies in the same page does the loop run, once.
   */
  function Length(va: nat, n: nat): (m: nat)
    requires va < U64 && n < U64
    ensures m <= n
  {
    if va + n <= U64 then n
    else if (va + n - U64 - 1) / PAGE == va / PAGE then PAGE - va % PAGE
    else 0
  }

  function Effective(va: nat, src: seq<int>): seq<int>
    requires va < U64 && |src| < U64
  {
    src[..Length(va, |src|)]
  }

  function Mod64(x: int): (r: nat)
    ensures r < U64
  {
    x % U64
  }

  lemma {:induction false} Mod64Is(x: int)
    requires 0 <= x + U64 && x < 2 * U64
    ensures Mod64(x) == if x < 0 then x + U64 else if x < U64 then x else x - U64
  {
  }

  /** The loop of `copyout` in 64-bit arithmetic, from page `i` on: how many bytes it copies. */
  function LoopBytes(i: nat, offset: nat, end: nat): nat
    decreases U64 / PAGE - i
  {
    if i > Mod64(end - 1) / PAGE then 0
    else
      var n := Min(Mod64(end - offset), Mod64((i + 1) * PAGE - offset));
      n + LoopBytes(i + 1, Mod64(offset + n), end)
  }

  function Min(a: nat, b: nat): nat
  {
    if a < b then a else b
  }

  /** Where the loop is: at `offset` in page `i`, or past the last page. */
  ghost predicate InLoop(i: nat, offset: nat, stop: nat)
  {
    && offset <= stop <= U64 && 0 < stop && (offset > 0 || stop < U64)
    && if offset < stop then offset / PAGE == i else (stop - 1) / PAGE < i
  }

  /** Up to an end that has not wrapped (`U64` itself is written 0), the loop copies everything. */
  lemma {:induction false} LoopRuns(i: nat, offset: nat, stop: nat)
    requires InLoop(i, offset, stop)
    ensures LoopBytes(i, Mod64(offset), Mod64(stop)) == stop - offset
    decreases stop - offset
  {
    hide Mod64;
    Mod64Is(offset);
    Mod64Is(stop);
    Mod64Is(Mod64(stop) - 1);
    if offset < stop {
      var n := Min(stop - offset, (i + 1) * PAGE - offset);
      LoopOn(i, offset, stop, n);
      Mod64Is(Mod64(stop) - offset);
      Mod64Is((i + 1) * PAGE - offset);
      LoopRuns(i + 1, offset + n, stop);
    }
  }

  lemma {:induction false} LoopOn(i: nat, offset: nat, stop: nat, n: nat)
    requires InLoop(i, offset, stop) && offset < stop && n == Min(stop - offset, (i + 1) * PAGE - offset)
    ensures 0 < n && InLoop(i + 1, offset + n, stop) && i <= (stop - 1) / PAGE
    ensures 0 < (i + 1) * PAGE - offset <= PAGE
  {
  }

  /** `Length` is what the code copies. */
  lemma {:induction false} LengthIsLoop(va: nat, n: nat)
    requires va < U64 && 0 < n < U64
    ensures Length(va, n) == LoopBytes(va / PAGE, va, Mod64(va + n))
  {
    hide LoopBytes, Mod64;
    Mod64Is(va);
    Mod64Is(va + n);
    if va + n <= U64 {
      LoopRuns(va / PAGE, va, va + n);
    } else {
      WrappedLoop(va, va + n - U64);
    }
  }

  lemma {:induction false} WrappedLoop(va: nat, end: nat)
    requires 0 < end < va < U64
    ensures LoopBytes(va / PAGE, va, end) == if (end - 1) / PAGE == va / PAGE then PAGE - va % PAGE else 0
  {
    hide Mod64;
    var i := va / PAGE;
    Mod64Is(end - 1);
    Mod64Is(end - va);
    Mod64Is((i + 1) * PAGE - va);
  }

  /** What an address mapped before reads afterwards. */
  ghost function After(mem: Mem, root: nat, frames: Frames, va: nat, src: seq<int>, v: nat): int
  {
    var k := Last(mem, root, va, |src|, FrameOf(mem, root, v), v % PAGE);
    if k < 0 then Byte(mem, root, frames, v) else src[k]
  }

  lemma {:induction false} NextPage(va: nat, done: nat, m: nat, n: nat)
    requires done < n && (0 < done ==> (va + done) % PAGE == 0)
    requires m == if n - done < PAGE - (va + done) % PAGE then n - done else PAGE - (va + done) % PAGE
    ensures m > 0 && (va + done) % PAGE + m <= PAGE && (done + m < n ==> (va + done + m) % PAGE == 0)
    ensures PageCount(va, done + m) == PageCount(va, done) + 1 && PageCount(va, done) < PageCount(va, n)
  {
  }

  lemma {:induction false} Finished(mem: Mem, root: nat, was: Frames, users: seq<nat>, mem': Mem, root': nat,
                                    users': seq<nat>, frames: Frames, va: nat, s: seq<int>)
    requires Grown(mem, root, users, mem', root', users', va, |s|) && Spare(mem, root, was, users)
             && Backed(mem, root, was)
    requires Copied(mem', root', va, s, was, frames) && Backed(mem', root', frames) && AllThere(mem', root', va, |s|)
    ensures ReadsBack(mem', root', frames, va, s) <==> WillCohere(mem, root, va, s)
    ensures forall v: nat | !Touched(va, |s|, v) :: Value(mem', root', v, 0) == Value(mem, root, v, 0)
    ensures forall v: nat | Mapped(mem, root, v) ::
              Value(mem', root', v, 0) == Value(mem, root, v, 0)
                && Byte(mem', root', frames, v) == After(mem, root, was, va, s, v)
  {
    ReadBack(mem', root', va, s, was, frames);
    CohereBefore(mem, root, was, users, mem', root', users', va, s);
    hide ReadsBack, WillCohere, Coherent, Copied, Backed, Spare, AllThere, Value, Address, Last, Byte, Touched;
    forall v: nat | Mapped(mem, root, v) ensures Byte(mem', root', frames, v) == After(mem, root, was, va, s, v) {
      OthersRead(mem, root, was, users, mem', root', users', va, s, frames, v);
    }
  }

  lemma {:induction false} SpareFrame(mem: Mem, root: nat, frames: Frames, users: seq<nat>)
    requires Spare(mem, root, frames, users) && users != []
    ensures Frame(users[0])
  {
  }

  lemma {:induction false} WriteBacked(mem: Mem, root: nat, frames: Frames, users: seq<nat>, pa: nat, f: seq<int>)
    requires Backed(mem, root, frames) && Spare(mem, root, frames, users) && pa in frames && |f| == PAGE
    ensures Backed(mem, root, frames[pa := f]) && Spare(mem, root, frames[pa := f], users)
  {
    hide Mapped, FrameOf;
  }

  /** After touching the next page, the bytes before are where they were and those of the page are in its frame. */
  lemma {:induction false} TouchedThere(mem: Mem, root: nat, users: seq<nat>, mem': Mem, root': nat, users': seq<nat>,
                                        va: nat, src: seq<int>, s: seq<int>, was: Frames, frames: Frames)
    requires Touches(mem, root, users, mem', root', users', va + |src|) && Mapped(mem', root', va + |src|)
             && (va + |src|) % PAGE + |s| <= PAGE
    requires AllThere(mem, root, va, |src|) && Copied(mem, root, va, src, was, frames)
    ensures AllThere(mem', root', va, |src + s|) && Copied(mem', root', va, src, was, frames)
    ensures forall i: nat | |src| <= i < |src| + |s| ::
              There(mem', root', va, i) && FrameAt(mem', root', va, i) == FrameOf(mem', root', va + |src|)
  {
    hide Value, PageNo, Address, Last, Copied;
    var n := |src|;
    forall i: nat | i < n
      ensures There(mem', root', va, i) && There(mem, root, va, i)
              && FrameAt(mem', root', va, i) == FrameAt(mem, root, va, i)
    {
      assert There(mem, root, va, i);
      if PageNo(va + i) == PageNo(va + n) {
        PageHasOneEntry(mem, root, va + n, va + i, 0);
      }
    }
    forall i: nat | n <= i < n + |s|
      ensures There(mem', root', va, i) && FrameAt(mem', root', va, i) == FrameOf(mem', root', va + n)
    {
      SamePageNo(va + n, i - n, |s|);
      PageHasOneEntry(mem', root', va + n, va + n + (i - n), 0);
    }
    CopiedSame(mem, root, mem', root', va, src, was, frames);
  }

  lemma {:induction false} SamePageNo(off: nat, j: nat, m: nat)
    requires off % PAGE + m <= PAGE && j < m
    ensures PageNo(off + j) == PageNo(off)
  {
  }

  lemma {:induction false} CopiedSame(mem: Mem, root: nat, mem': Mem, root': nat, va: nat, src: seq<int>, was: Frames,
                                      frames: Frames)
    requires Copied(mem, root, va, src, was, frames)
             && forall i: nat | i < |src| ::
               There(mem', root', va, i) == There(mem, root, va, i)
               && FrameAt(mem', root', va, i) == FrameAt(mem, root, va, i)
    ensures Copied(mem', root', va, src, was, frames)
  {
    hide There, FrameAt, Last;
    forall pa <- frames, o: nat | o < PAGE
      ensures Last(mem', root', va, |src|, pa, o) == Last(mem, root, va, |src|, pa, o)
    {
      LastSame(mem, root, mem', root', va, |src|, pa, o);
    }
  }

  /**
   A copy that is not read back: one frame mapped at two neighbouring pages, as `exec` maps the
   zero page, and two different bytes for its first place.
   */
  method LosesAByte(pool: seq<nat>, z: nat, frames: Frames, users: seq<nat>, src: seq<int>)
    returns (space: Space, ok: bool)
    requires PoolOk(pool, map[]) && |pool| >= 14 && Frame(z) && z in frames && FramesOk(frames)
    requires |users| >= 2 && z !in users && (forall i | 0 <= i < |users| :: Frame(users[i]) && users[i] in frames)
    requires forall i, j | 0 <= i < j < |users| :: users[i] != users[j]
    requires |src| == PAGE + 1 && src[0] != src[PAGE]
    ensures ok && !ReadsBack(space.pd.mem, space.pd.root, space.frames, 0x1000, src)
  {
    hide Value, Address, PageTable.Tree, PoolOk, Walk, Byte, ReadsBack, Touched;
    var pd := new Pgdir(pool);
    var one := pd.Vmmap(0x1000, z, USER_DATA);
    var two := pd.Vmmap(0x2000, z, USER_DATA);
    UserEntry(z);
    forall v: nat
      ensures Value(pd.mem, pd.root, v, 0) == if PageNo(v) == 1 || PageNo(v) == 2 then z + USER_DATA else 0
    {
      assert pd.Entry(v) == if PageNo(v) == 2 then z + USER_DATA else if PageNo(v) == 1 then z + USER_DATA else 0;
    }
    space := new Space(pd, frames, users);
    ghost var mem0, root0 := pd.mem, pd.root;
    assert Effective(0x1000, src) == src && PageCount(0x1000, |src|) == 2;
    assert !WillCohere(mem0, root0, 0x1000, src) by {
      assert PageNo(0x1000) == 1 && PageNo(0x2000) == 2;
      assert There(mem0, root0, 0x1000, 0) && There(mem0, root0, 0x1000, PAGE);
      assert WillMeet(mem0, root0, 0x1000, 0, PAGE);
    }
    ok := space.CopyOut(0x1000, src);
  }
}
