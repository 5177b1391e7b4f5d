/**
 Directories: files of 16-byte entries (a 16-bit inode number and a name of at most 14
 characters) that behave as a finite map from names to non-zero inode numbers.
 */
module Directory {
  import opened Bits
  import opened Blocks
  import opened FsLayout
  import opened Files
  import opened Inodes
  import opened Journal
  import opened Volume
  import opened WriteCost

  const NAME_MAX: nat := 14
  const ENTRY: nat := 16
  const DIRECTORY: nat := 1

  // Names.

  /** The characters of a name before its end. */
  function Name(s: seq<byte>): (r: seq<byte>)
    ensures |r| <= |s| && r == s[..|r|] && (forall i | 0 <= i < |r| :: r[i] != 0) && (|r| < |s| ==> s[|r|] == 0)
  {
    if s == [] || s[0] == 0 then [] else [s[0]] + Name(s[1..])
  }

  /** No byte differs up to the end of `a`. */
  ghost predicate Agrees(a: seq<byte>, b: seq<byte>)
    requires |a| == |b|
  {
    forall i | 0 <= i < |a| && (forall j | 0 <= j < i :: a[j] != 0) :: a[i] == b[i]
  }

  lemma {:induction false} AgreesName(a: seq<byte>, b: seq<byte>)
    requires |a| == |b|
    ensures Agrees(a, b) <==> Name(a) == Name(b)
  {
    var m, n := |Name(a)|, |Name(b)|;
    if Agrees(a, b) {
      assert forall i | 0 <= i < m :: b[i] == a[i] == Name(a)[i];
      assert m <= n;
      assert m < |a| ==> b[m] == 0;
      assert forall i | 0 <= i < n :: b[i] == Name(b)[i];
      assert n <= m;
      assert Name(a) == a[..m] == b[..m] == Name(b);
    }
    if Name(a) == Name(b) {
      forall i | 0 <= i < |a| && (forall j | 0 <= j < i :: a[j] != 0) ensures a[i] == b[i] {
        if i < m {
          assert a[i] == Name(a)[i] == Name(b)[i] == b[i];
        }
      }
    }
  }

  /** `strncmp` over equally long buffers, as a test for equality. */
  method SameName(a: seq<byte>, b: seq<byte>) returns (same: bool)
    requires |a| == |b|
    ensures same <==> Agrees(a, b)
  {
    var i := 0;
    while i < |a|
      invariant 0 <= i <= |a| && forall j | 0 <= j < i :: a[j] == b[j] && a[j] != 0
    {
      if a[i] != b[i] {
        return false;
      }
      if a[i] == 0 || b[i] == 0 {
        return true;
      }
      i := i + 1;
    }
    return true;
  }

  // The map a directory file spells out.

  ghost predicate Even(c: seq<byte>)
  {
    |c| % ENTRY == 0
  }

  function Slots(c: seq<byte>): nat
  {
    |c| / ENTRY
  }

  /** The inode number of entry `i`; 0 means the entry is free. */
  function NoAt(c: seq<byte>, i: nat): nat
    requires i < Slots(c)
  {
    Decode(c[ENTRY * i..ENTRY * i + 2])
  }

  function NameAt(c: seq<byte>, i: nat): seq<byte>
    requires i < Slots(c)
  {
    Name(c[ENTRY * i + 2..ENTRY * i + 16])
  }

  /** Entry `i` is free: its two number bytes are 0. */
  ghost predicate Vacant(c: seq<byte>, i: nat)
  {
    ENTRY * i + ENTRY <= |c| && c[ENTRY * i] == 0 && c[ENTRY * i + 1] == 0
  }

  /** Entry `i` is in use and bears the name in the 14 bytes `name`. */
  ghost predicate Bears(c: seq<byte>, i: nat, name: seq<byte>)
    requires |name| == NAME_MAX
  {
    ENTRY * i + ENTRY <= |c| && !Vacant(c, i) && Agrees(name, c[ENTRY * i + 2..ENTRY * i + 16])
  }

  /** The number stands in front, low byte first. */
  lemma {:induction false} NoAtIs(c: seq<byte>, i: nat)
    requires i < Slots(c)
    ensures ENTRY * i + ENTRY <= |c| && NoAt(c, i) == Two(c, ENTRY * i)
    ensures NoAt(c, i) == 0 <==> Vacant(c, i)
  {
    DecodeTwo(c, ENTRY * i);
  }

  lemma {:induction false} BearsIs(c: seq<byte>, i: nat, name: seq<byte>)
    requires |name| == NAME_MAX
    ensures Bears(c, i, name) <==> i < Slots(c) && NoAt(c, i) != 0 && NameAt(c, i) == Name(name)
  {
    if i < Slots(c) {
      NoAtIs(c, i);
      AgreesName(name, c[ENTRY * i + 2..ENTRY * i + 16]);
    }
  }

  /** The map in terms of bytes: a name is bound exactly if an entry bears it, to the number in front of it. */
  lemma {:induction false} MapIs(c: seq<byte>, name: seq<byte>)
    requires Unique(c) && |name| == NAME_MAX
    ensures Name(name) in Map(c) <==> exists i :: Bears(c, i, name)
    ensures forall i | Bears(c, i, name) ::
              Name(name) in Map(c) && Map(c)[Name(name)] == Two(c, ENTRY * i)
  {
    hide NoAt, NameAt, Dir, Bears, Unique, Name;
    if Name(name) in Map(c) {
      var i := DirFrom(c, Slots(c), Name(name));
      BearsIs(c, i, name);
    }
    forall i: nat | Bears(c, i, name)
      ensures i < Slots(c) && ENTRY * i + ENTRY <= |c|
      ensures Name(name) in Map(c) && Map(c)[Name(name)] == Two(c, ENTRY * i)
    {
      BearsIs(c, i, name);
      NoAtIs(c, i);
      DirHas(c, Slots(c), i);
    }
  }

  /** No two entries in use have the same name. */
  ghost predicate Unique(c: seq<byte>)
  {
    forall i, j | 0 <= i < j < Slots(c) && NoAt(c, i) != 0 && NoAt(c, j) != 0 :: NameAt(c, i) != NameAt(c, j)
  }

  ghost predicate WellFormed(c: seq<byte>)
  {
    Even(c) && Unique(c)
  }

  /** The map of the first `n` entries. */
  function Dir(c: seq<byte>, n: nat): map<seq<byte>, nat>
    requires n <= Slots(c)
  {
    if n == 0 then map[] else if NoAt(c, n - 1) == 0 then Dir(c, n - 1)
        else Dir(c, n - 1)[NameAt(c, n - 1) := NoAt(c, n - 1)]
  }

  function Map(c: seq<byte>): map<seq<byte>, nat>
  {
    Dir(c, Slots(c))
  }

  lemma {:induction false} DirHas(c: seq<byte>, n: nat, i: nat)
    requires Unique(c) && i < n <= Slots(c) && NoAt(c, i) != 0
    ensures NameAt(c, i) in Dir(c, n) && Dir(c, n)[NameAt(c, i)] == NoAt(c, i)
  {
    hide NoAt, NameAt;
    if i < n - 1 {
      DirHas(c, n - 1, i);
    }
  }

  /** Every binding comes from an entry. */
  lemma {:induction false} DirFrom(c: seq<byte>, n: nat, name: seq<byte>) returns (i: nat)
    requires n <= Slots(c) && name in Dir(c, n)
    ensures i < n && NoAt(c, i) != 0 && NameAt(c, i) == name && Dir(c, n)[name] == NoAt(c, i)
  {
    hide NoAt, NameAt;
    if NoAt(c, n - 1) != 0 && NameAt(c, n - 1) == name {
      i := n - 1;
    } else {
      i := DirFrom(c, n - 1, name);
    }
  }

  lemma {:induction false} DirNonZero(c: seq<byte>)
    ensures forall name <- Map(c) :: Map(c)[name] != 0
  {
    forall name <- Map(c) ensures Map(c)[name] != 0 {
      var i := DirFrom(c, Slots(c), name);
    }
  }

  // One entry written.

  function EntryOf(no: nat, name: seq<byte>): (s: seq<byte>)
    requires |name| == NAME_MAX
    ensures |s| == ENTRY
  {
    Encode(no, 2) + name
  }

  lemma {:induction false} EntryBytesAre(no: nat, name: seq<byte>)
    requires |name| == NAME_MAX
    ensures EntryOf(no % 0x1_0000, name) == [(no % 0x100) as byte, (no / 0x100 % 0x100) as byte] + name
  {
    var n := no % 0x1_0000;
    assert n % 0x100 == no % 0x100 && n / 0x100 % 0x100 == no / 0x100 % 0x100;
    assert Encode(n, 2) == [(n % 0x100) as byte] + Encode(n / 0x100, 1);
    assert Encode(n / 0x100, 1) == [(n / 0x100 % 0x100) as byte] + Encode(n / 0x100 / 0x100, 0);
  }

  lemma {:induction false} NoAtFree(c: seq<byte>, i: nat)
    requires FirstFree(c, i)
    ensures i < Slots(c) ==> NoAt(c, i) == 0
  {
    if i < Slots(c) {
      NoAtIs(c, i);
    }
  }

  /** Entry `i` of `c'` is `s`; the others are those of `c`. */
  ghost predicate Put(c: seq<byte>, c': seq<byte>, i: nat, no: nat, name: seq<byte>)
  {
    && Even(c) && Even(c') && i < Slots(c') && i <= Slots(c) && Slots(c') == (if i == Slots(c) then i + 1 else Slots(c))
    && NoAt(c', i) == no && NameAt(c', i) == name
    && forall j | 0 <= j < Slots(c) && j != i :: NoAt(c', j) == NoAt(c, j) && NameAt(c', j) == NameAt(c, j)
  }

  lemma {:induction false} OverwrittenPuts(c: seq<byte>, i: nat, no: nat, name: seq<byte>)
    requires Even(c) && i <= Slots(c) && no < 0x1_0000 && |name| == NAME_MAX
    ensures Put(c, Overwritten(c, ENTRY * i, EntryOf(no, name)), i, no, Name(name))
  {
    var s := EntryOf(no, name);
    var c' := Overwritten(c, ENTRY * i, s);
    assert c'[ENTRY * i..ENTRY * i + 2] == Encode(no, 2) && c'[ENTRY * i + 2..ENTRY * i + 16] == name;
    assert Power(2) == 0x1_0000;
    DecodeEncode(no, 2);
    hide Decode, Encode, Name, Power;
    forall j | 0 <= j < Slots(c) && j != i ensures NoAt(c', j) == NoAt(c, j) && NameAt(c', j) == NameAt(c, j) {
      Untouched(c, ENTRY * i, s, ENTRY * j, ENTRY * j + 2);
      Untouched(c, ENTRY * i, s, ENTRY * j + 2, ENTRY * j + 16);
    }
  }

  lemma {:induction false} Untouched(c: seq<byte>, at: nat, s: seq<byte>, lo: nat, hi: nat)
    requires at <= |c| && lo <= hi <= |c| && (hi <= at || at + |s| <= lo)
    ensures |Overwritten(c, at, s)| >= hi && Overwritten(c, at, s)[lo..hi] == c[lo..hi]
  {
    var r := Overwritten(c, at, s);
    assert |r| >= hi;
    assert forall q | lo <= q < hi :: r[q] == c[q];
  }

  /** A new name in a free entry adds one binding, unless its number is 0. */
  lemma {:induction false} InsertMaps(c: seq<byte>, c': seq<byte>, i: nat, no: nat, name: seq<byte>)
    requires Unique(c) && Put(c, c', i, no, name) && (i < Slots(c) ==> NoAt(c, i) == 0) && name !in Map(c)
    ensures Unique(c') && Map(c') == if no == 0 then Map(c) else Map(c)[name := no]
  {
    hide NoAt, NameAt, Dir, Even;
    forall j | 0 <= j < Slots(c) && NoAt(c, j) != 0
      ensures NameAt(c, j) != name && NameAt(c, j) in Map(c) && Map(c)[NameAt(c, j)] == NoAt(c, j)
    {
      DirHas(c, Slots(c), j);
    }
    assert Unique(c');
    SameMap(c', if no == 0 then Map(c) else Map(c)[name := no], c, i);
  }

  /** Zeroing an entry removes its binding. */
  lemma {:induction false} RemoveMaps(c: seq<byte>, c': seq<byte>, i: nat, name: seq<byte>)
    requires Unique(c) && Put(c, c', i, 0, name) && i < Slots(c)
    ensures Unique(c') && Map(c') == if NoAt(c, i) == 0 then Map(c) else Map(c) - {NameAt(c, i)}
  {
    hide NoAt, NameAt, Dir, Even;
    forall j | 0 <= j < Slots(c) && NoAt(c, j) != 0
      ensures NameAt(c, j) in Map(c) && Map(c)[NameAt(c, j)] == NoAt(c, j)
    {
      DirHas(c, Slots(c), j);
    }
    assert Unique(c');
    SameMap(c', if NoAt(c, i) == 0 then Map(c) else Map(c) - {NameAt(c, i)}, c, i);
  }

  /** Both directions between the bindings of `m` and the entries of `c'`, which differs from `c` at entry `i`. */
  lemma {:induction false} SameMap(c': seq<byte>, m: map<seq<byte>, nat>, c: seq<byte>, i: nat)
    requires Unique(c) && Unique(c') && i < Slots(c') && Slots(c') >= Slots(c) >= Slots(c') - 1
             && (Slots(c) < Slots(c') ==> i == Slots(c))
    requires forall j | 0 <= j < Slots(c) && j != i :: NoAt(c', j) == NoAt(c, j) && NameAt(c', j) == NameAt(c, j)
    requires NoAt(c', i) != 0 ==> NameAt(c', i) in m && m[NameAt(c', i)] == NoAt(c', i)
    requires forall j | 0 <= j < Slots(c) && j != i && NoAt(c, j) != 0 ::
               NameAt(c, j) in m && m[NameAt(c, j)] == NoAt(c, j)
    requires forall name <- m ::
               (name in Map(c) && (i < Slots(c) && NoAt(c, i) != 0 ==> name != NameAt(c, i)))
               || (NoAt(c', i) != 0 && name == NameAt(c', i))
    ensures Map(c') == m
  {
    hide NoAt, NameAt, Dir;
    forall name <- Map(c') ensures name in m && m[name] == Map(c')[name] {
      var j := DirFrom(c', Slots(c'), name);
    }
    forall name <- m ensures name in Map(c') {
      if NoAt(c', i) != 0 && name == NameAt(c', i) {
        DirHas(c', Slots(c'), i);
      } else {
        var j := DirFrom(c, Slots(c), name);
        DirHas(c', Slots(c'), j);
      }
    }
  }

  // The operations.

  /** Inode `k` can be worked on; if it is a directory, its entries are in order. */
  ghost predicate Opened(fs: Fs, k: nat)
    reads fs
  {
    && fs.Sound(0) && k in fs.inodes && |fs.inodes[k].addrs| == NUM_DIRECT && fs.inodes[k].size <= MAX_BYTES
    && (fs.inodes[k].kind == DIRECTORY ==> WellFormed(Content(fs.view, fs.inodes[k])))
  }

  /** One entry read with `inode_read`. */
  method ReadEntry(fs: Fs, k: nat, i: nat) returns (no: nat, name: seq<byte>)
    requires Opened(fs, k) && fs.inodes[k].kind == DIRECTORY && i < Slots(Content(fs.view, fs.inodes[k]))
    modifies fs
    ensures fs.view == old(fs.view) && fs.inodes == old(fs.inodes) && fs.owner == old(fs.owner)
            && fs.reserved == old(fs.reserved)
    ensures fs.logged == old(fs.logged) && fs.rm == old(fs.rm) && fs.Sound(0) && fs.start == old(fs.start)
    ensures |name| == NAME_MAX && no == NoAt(Content(fs.view, fs.inodes[k]), i)
            && Name(name) == NameAt(Content(fs.view, fs.inodes[k]), i)
  {
    hide World, Bytes, Decode, Name;
    ghost var c := Content(fs.view, fs.inodes[k]);
    var r, data := fs.Read(k, ENTRY * i, ENTRY);
    assert data == c[ENTRY * i..ENTRY * i + 16];
    assert data[..2] == c[ENTRY * i..ENTRY * i + 2] && data[2..] == c[ENTRY * i + 2..ENTRY * i + 16];
    return Decode(data[..2]), data[2..];
  }

  /** The number of the first entry that bears `name`, and its offset; this is the binding of the name. */
  ghost predicate Hit(c: seq<byte>, name: seq<byte>, no: nat, index: nat)
    requires |name| == NAME_MAX
  {
    && index % ENTRY == 0 && index + ENTRY <= |c| && Bears(c, index / ENTRY, name) && no == Two(c, index)
    && (forall j: nat | j < index / ENTRY :: !Bears(c, j, name))
    && Name(name) in Map(c) && Map(c)[Name(name)] == no
  }

  datatype Found = Found(no: nat, index: nat) | NotFound | Wrong

  /** `inode_lookup`. */
  method Lookup(fs: Fs, k: nat, name: seq<byte>) returns (r: Found)
    requires Opened(fs, k) && |name| == NAME_MAX
    modifies fs
    ensures fs.view == old(fs.view) && fs.inodes == old(fs.inodes) && fs.owner == old(fs.owner)
            && fs.reserved == old(fs.reserved)
    ensures fs.logged == old(fs.logged) && fs.rm == old(fs.rm) && fs.Sound(0) && fs.start == old(fs.start)
    ensures r.Wrong? <==> fs.inodes[k].kind != DIRECTORY
    ensures var c := Content(fs.view, fs.inodes[k]); !r.Wrong? ==> (r.Found? <==> exists i :: Bears(c, i, name))
    ensures r.Found? ==> Hit(Content(fs.view, fs.inodes[k]), name, r.no, r.index)
  {
    hide World, Content, NoAt, NameAt, Name, Dir, Unique, Bears, Agrees, Vacant;
    if fs.inodes[k].kind != DIRECTORY {
      return Wrong;
    }
    ghost var c := Content(fs.view, fs.inodes[k]);
    var offset: nat := 0;
    while offset < fs.inodes[k].size
      invariant fs.view == old(fs.view) && fs.inodes == old(fs.inodes) && fs.owner == old(fs.owner)
                && fs.reserved == old(fs.reserved)
      invariant fs.logged == old(fs.logged) && fs.rm == old(fs.rm) && fs.Sound(0) && fs.start == old(fs.start)
      invariant offset % ENTRY == 0 && offset <= |c|
                && forall j: nat | j < offset / ENTRY :: !Bears(c, j, name)
      decreases |c| - offset
    {
      ghost var i := offset / ENTRY;
      var no, other := ReadEntry(fs, k, offset / ENTRY);
      var same := SameName(name, other);
      AgreesName(name, other);
      BearsIs(c, i, name);
      if no != 0 && same {
        MapIs(c, name);
        NoAtIs(c, i);
        return Found(no, offset);
      }
      offset := offset + ENTRY;
    }
    forall i: nat | Bears(c, i, name) ensures i < offset / ENTRY {
      BearsIs(c, i, name);
    }
    return NotFound;
  }

  /** The first free entry, or the end. */
  ghost predicate FirstFree(c: seq<byte>, i: nat)
  {
    i <= Slots(c) && (i < Slots(c) ==> Vacant(c, i)) && forall j: nat | j < i :: !Vacant(c, j)
  }

  /** The loop of `inode_insert` that looks for a place. */
  method FindFree(fs: Fs, k: nat) returns (offset: nat)
    requires Opened(fs, k) && fs.inodes[k].kind == DIRECTORY
    modifies fs
    ensures fs.view == old(fs.view) && fs.inodes == old(fs.inodes) && fs.owner == old(fs.owner)
            && fs.reserved == old(fs.reserved)
    ensures fs.logged == old(fs.logged) && fs.rm == old(fs.rm) && fs.Sound(0) && fs.start == old(fs.start)
    ensures offset % ENTRY == 0 && offset <= fs.inodes[k].size
            && FirstFree(Content(fs.view, fs.inodes[k]), offset / ENTRY)
  {
    hide World, Content, NoAt, NameAt, Name, Unique, Vacant;
    ghost var c := Content(fs.view, fs.inodes[k]);
    offset := 0;
    while offset < fs.inodes[k].size
      invariant fs.view == old(fs.view) && fs.inodes == old(fs.inodes) && fs.owner == old(fs.owner)
                && fs.reserved == old(fs.reserved)
      invariant fs.logged == old(fs.logged) && fs.rm == old(fs.rm) && fs.Sound(0) && fs.start == old(fs.start)
      invariant offset % ENTRY == 0 && offset <= |c| && forall j: nat | j < offset / ENTRY :: !Vacant(c, j)
      decreases |c| - offset
    {
      var no, other := ReadEntry(fs, k, offset / ENTRY);
      NoAtIs(c, offset / ENTRY);
      if no == 0 {
        return;
      }
      offset := offset + ENTRY;
    }
  }

  lemma {:induction false} EntryInBlock(offset: nat)
    requires offset % ENTRY == 0
    ensures offset % 512 + ENTRY <= 512 && BlocksFor(offset + ENTRY) == offset / 512 + 1 && Touched(offset, ENTRY) == 1
  {
    var b, r := offset / 512, offset % 512;
    assert r == 16 * (offset / 16 - 32 * b);
    assert (offset + 15) / 512 == b && (offset + 16 + 511) / 512 == b + 1;
  }

  /** An entry lies in one block, and appending it takes at most two new ones. */
  lemma {:induction false} OneBlock(offset: nat, size: nat)
    requires offset % ENTRY == 0 && offset <= size && size % ENTRY == 0
    ensures Touched(offset, ENTRY) == 1 && Cost(BlocksFor(Max(size, offset + ENTRY))) <= Cost(BlocksFor(size)) + 2
    ensures offset < size ==> Max(size, offset + ENTRY) == size
  {
    EntryInBlock(offset);
    hide Touched;
    var b := offset / 512;
    assert BlocksFor(size) >= b;
  }

  /** There is always a first free entry or the end. */
  lemma {:induction false} SomeFree(c: seq<byte>, n: nat) returns (i: nat)
    requires n <= Slots(c) && forall j: nat | j < n :: !Vacant(c, j)
    ensures FirstFree(c, i)
    decreases Slots(c) - n
  {
    hide Vacant;
    i := n;
    if n < Slots(c) && !Vacant(c, n) {
      i := SomeFree(c, n + 1);
    }
  }

  lemma {:induction false} OneFree(c: seq<byte>, j: nat)
    requires FirstFree(c, j)
    ensures forall i | FirstFree(c, i) :: i == j
  {
    hide Vacant;
  }

  /** An entry cannot be written at `offset`: the directory, the disk or the reservation is full. */
  ghost predicate NoRoom(lay: Layout, view: Disk, e: Entry, k: nat, logged: set<nat>, rm: nat, offset: nat)
    requires |e.addrs| == NUM_DIRECT && e.size <= MAX_BYTES
  {
    offset + ENTRY > MAX_BYTES || Unaffordable(lay, view, e, k, logged, rm, offset, offset + ENTRY)
  }

  lemma {:induction false} NotBad(offset: nat, size: nat)
    requires offset % ENTRY == 0 && size % ENTRY == 0 && offset <= size < MAX_BYTES
    ensures !BadWrite(size, offset, ENTRY) && offset + ENTRY <= MAX_BYTES
  {
  }

  /** Two free blocks and four header entries are always enough, unless the directory has its full length. */
  lemma {:induction false} RoomEnough(fs: Fs, k: nat, offset: nat)
    requires Opened(fs, k) && offset % ENTRY == 0 && offset <= fs.inodes[k].size && fs.inodes[k].size % ENTRY == 0
    requires fs.inodes[k].size < MAX_BYTES && |FreeBlocks(fs.lay, fs.view)| >= 2 && fs.rm >= 4
    ensures !NoRoom(fs.lay, fs.view, fs.inodes[k], k, fs.logged, fs.rm, offset)
  {
    hide World, FreeBlocks, Mapped, WriteSet, Touched, BlocksFor, Cost, Puts, Content, WellFormed, BadWrite;
    var e, free := fs.inodes[k], FreeBlocks(fs.lay, fs.view);
    OneBlock(offset, e.size);
    NotBad(offset, e.size);
    BlocksMax(e.size, offset, offset + ENTRY);
    Begin(fs.lay, fs.view, fs.inodes, fs.owner, fs.reserved, k);
    WriteSetSize(fs.lay, fs.view, e, free, k, offset, ENTRY);
    var w := WriteSet(fs.lay, fs.view, e, free, k, offset, offset + ENTRY);
    LeftOver(w, w * fs.logged);
    assert w - w * fs.logged == w - fs.logged;
  }

  datatype Inserted = At(index: nat) | Exists | Failed

  /** `inode_insert`; `Exists` is its return value -1, and `Failed` a panic. */
  method Insert(fs: Fs, k: nat, name: seq<byte>, no: nat) returns (r: Inserted)
    requires Opened(fs, k) && |name| == NAME_MAX
    modifies fs
    ensures old(fs.inodes[k].kind) != DIRECTORY ==> r.Failed?
    ensures old(fs.inodes[k].kind) == DIRECTORY ==>
              (r.Exists? <==> exists i :: Bears(old(Content(fs.view, fs.inodes[k])), i, name))
    ensures r.Exists? ==> fs.view == old(fs.view) && fs.inodes == old(fs.inodes)
    ensures old(fs.inodes[k].kind) == DIRECTORY && !r.Exists? ==>
              forall i | FirstFree(old(Content(fs.view, fs.inodes[k])), i) ::
                (r.Failed? <==> old(NoRoom(fs.lay, fs.view, fs.inodes[k], k, fs.logged, fs.rm, ENTRY * i)))
    ensures r.At? ==> Opened(fs, k) && fs.inodes[k].kind == DIRECTORY && fs.reserved == old(fs.reserved)
    ensures r.At? ==> Whole(old(fs.inodes)) && Others(old(fs.view), old(fs.inodes), fs.view, fs.inodes, k)
    ensures r.At? ==> r.index % ENTRY == 0 && FirstFree(old(Content(fs.view, fs.inodes[k])), r.index / ENTRY)
    ensures r.At? ==> Content(fs.view, fs.inodes[k]) ==
                        Overwritten(old(Content(fs.view, fs.inodes[k])), r.index,
                                    [(no % 0x100) as byte, (no / 0x100 % 0x100) as byte] + name)
    ensures r.At? ==> Map(Content(fs.view, fs.inodes[k])) ==
                        Bound(old(Map(Content(fs.view, fs.inodes[k]))), Name(name), no % 0x1_0000)
    ensures fs.Traced() && fs.start == old(fs.start) && (!r.Failed? && old(fs.Tidy()) ==> fs.Tidy())
  {
    hide World, Content, NoAt, NameAt, Name, Dir, Unique, Others, FreeBlocks, Touched, Overwritten, InUse, Meta, Puts;
    hide Unaffordable, SyncsExactly, Spent, Bears, Vacant, Agrees;
    ghost var c := Content(fs.view, fs.inodes[k]);
    var found := Lookup(fs, k, name);
    if found.Wrong? {
      return Failed;
    }
    if found.Found? {
      return Exists;
    }
    var offset := FindFree(fs, k);
    OneBlock(offset, fs.inodes[k].size);
    assert forall i | FirstFree(c, i) :: i == offset / ENTRY by { OneFree(c, offset / ENTRY); }
    var out := fs.Write(k, EntryOf(no % 0x1_0000, name), offset);
    if !out.Done? {
      return Failed;
    }
    MapIs(c, name);
    EntryBytesAre(no, name);
    NoAtFree(c, offset / ENTRY);
    OverwrittenPuts(c, offset / ENTRY, no % 0x1_0000, name);
    InsertMaps(c, Content(fs.view, fs.inodes[k]), offset / ENTRY, no % 0x1_0000, Name(name));
    return At(offset);
  }

  /** A map with one more binding, unless the value is 0. */
  function Bound(m: map<seq<byte>, nat>, name: seq<byte>, no: nat): map<seq<byte>, nat>
  {
    if no == 0 then m else m[name := no]
  }

  /** Blanking an entry that starts inside a file needs no new block. */
  lemma {:induction false} BlankInside(index: nat, size: nat)
    requires index % ENTRY == 0 && index < size <= MAX_BYTES
    ensures Touched(index, ENTRY) == 1 && BlocksFor(Max(size, index + ENTRY)) == BlocksFor(size)
            && !BadWrite(size, index, ENTRY)
    ensures size % ENTRY == 0 ==> Max(size, index + ENTRY) == size
  {
    EntryInBlock(index);
    hide Touched;
    var b := index / 512;
    assert BlocksFor(size) >= b + 1;
  }

  /** `inode_remove`, which does not ask whether the inode is a directory; false where it panics. */
  method Remove(fs: Fs, k: nat, index: nat) returns (ok: bool)
    requires Opened(fs, k) && index < U64
    modifies fs
    ensures !ok <==>
            || index % ENTRY != 0
            || (index < old(fs.inodes[k].size)
                && old(NoWrite(fs.lay, fs.view, fs.inodes[k], k, fs.logged, fs.rm, index)))
    ensures ok && (index >= old(fs.inodes[k].size) || old(fs.inodes[k].kind) == DEVICE) ==>
              fs.view == old(fs.view) && fs.inodes == old(fs.inodes)
    ensures ok ==> Opened(fs, k) && fs.inodes[k].kind == old(fs.inodes[k].kind) && fs.reserved == old(fs.reserved)
    ensures ok && index < old(fs.inodes[k].size) && old(fs.inodes[k].kind) != DEVICE ==>
              && Whole(old(fs.inodes)) && Others(old(fs.view), old(fs.inodes), fs.view, fs.inodes, k)
              && Content(fs.view, fs.inodes[k]) == Overwritten(old(Content(fs.view, fs.inodes[k])), index, Zeros(ENTRY))
    ensures ok && index < old(fs.inodes[k].size) && old(fs.inodes[k].kind) == DIRECTORY ==>
              && fs.inodes[k].size == old(fs.inodes[k].size)
              && Map(Content(fs.view, fs.inodes[k])) == Unbound(old(Content(fs.view, fs.inodes[k])), index / ENTRY)
    ensures fs.Traced() && fs.start == old(fs.start) && (ok && old(fs.Tidy()) ==> fs.Tidy())
  {
    hide World, Content, NoAt, NameAt, Name, Dir, Unique, Others, FreeBlocks, Touched, Overwritten, InUse, Meta, Puts,
      Unaffordable, SyncsExactly, Spent;
    if index % ENTRY != 0 {
      return false;
    }
    if index < fs.inodes[k].size {
      ghost var c := Content(fs.view, fs.inodes[k]);
      BlankInside(index, fs.inodes[k].size);
      BlankEntry();
      var out := fs.Write(k, Zeros(ENTRY), index);
      if out.Panic? {
        return false;
      }
      if fs.inodes[k].kind == DIRECTORY {
        OverwrittenPuts(c, index / ENTRY, 0, Zeros(NAME_MAX));
        RemoveMaps(c, Content(fs.view, fs.inodes[k]), index / ENTRY, Name(Zeros(NAME_MAX)));
      }
    }
    return true;
  }

  /** What can keep a write inside a file from happening: a device without a driver, or too small a reservation. */
  ghost predicate NoWrite(lay: Layout, view: Disk, e: Entry, k: nat, logged: set<nat>, rm: nat, index: nat)
    requires |e.addrs| == NUM_DIRECT && e.size <= MAX_BYTES
  {
    if e.kind == DEVICE then e.major != 1 else Unaffordable(lay, view, e, k, logged, rm, index, index + ENTRY)
  }

  lemma {:induction false} BlankEntry()
    ensures EntryOf(0, Zeros(NAME_MAX)) == Zeros(ENTRY)
  {
    assert Encode(0, 2) == [0, 0];
  }

  /** The map of a directory without the binding of entry `i`. */
  function Unbound(c: seq<byte>, i: nat): map<seq<byte>, nat>
  {
    if i < Slots(c) && NoAt(c, i) != 0 then Map(c) - {NameAt(c, i)} else Map(c)
  }
}
