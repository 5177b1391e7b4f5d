/** Every action keeps the invariant and does only what the promise to clients allows. */
module WalSteps {
  import opened Blocks
  import opened Wal
  import opened Sums
  import opened WalSafety

  ghost predicate Live(cfg: Config, s: State, a: Abstract)
  {
    Inv(cfg, s, a) && !s.phase.Boot?
  }

  // The cache: nothing here touches the disk, the header or the view.

  lemma {:induction false} HoldKeeps(cfg: Config, s: State, a: Abstract, h: Holder, b: nat)
    requires Live(cfg, s, a) && MayAcquire(cfg, s, h, b) && b in s.cache && b !in s.held
    ensures Inv(cfg, s.(held := s.held[b := h]), a)
  {
    hide DurableOnDisk, ValidHeader, RestOnDisk, SlotsFilled, SlotsShown, HomesShown, EntriesPinned, Phased, Accounted;
  }

  lemma {:induction false} MissKeeps(cfg: Config, s: State, a: Abstract, h: Holder, b: nat, evicted: set<nat>)
    requires Live(cfg, s, a) && MayAcquire(cfg, s, h, b) && b !in s.cache
    requires evicted <= s.cache.Keys && forall e <- evicted :: e !in s.held && !s.cache[e].pinned
    ensures Inv(cfg, AfterMiss(s, h, b, evicted), a)
  {
    hide DurableOnDisk, ValidHeader, RestOnDisk, SlotsFilled, Phased, Accounted, Zeros;
    var s' := AfterMiss(s, h, b, evicted);
    assert Locks(cfg, s'.cache.Keys, s'.held, s'.loading, s'.dirty, a.ops, s'.booting);
  }

  lemma {:induction false} LoadKeeps(cfg: Config, s: State, a: Abstract, b: nat)
    requires Live(cfg, s, a) && b in s.loading && b in s.cache
    ensures Inv(cfg, AfterLoad(s, b), a)
  {
    hide DurableOnDisk, ValidHeader, SlotsFilled, Phased, Accounted;
  }

  lemma {:induction false} ReleaseKeeps(cfg: Config, s: State, a: Abstract, b: nat)
    requires Live(cfg, s, a) && Ready(s, b) && b !in s.dirty
    ensures Inv(cfg, s.(held := s.held - {b}), a)
  {
    hide DurableOnDisk, ValidHeader, RestOnDisk, SlotsFilled, SlotsShown, HomesShown, EntriesPinned, Phased, Accounted;
  }

  lemma {:induction false} LookKeeps(cfg: Config, s: State, a: Abstract, b: nat)
    requires Live(cfg, s, a) && Enabled(cfg, s, Look(b))
    ensures s.cache[b].data == At(a.view, b)
  {
    hide DurableOnDisk, ValidHeader, RestOnDisk, SlotsFilled, SlotsShown, EntriesPinned, Phased, Accounted;
  }

  // Operations.

  lemma {:induction false} BeginAccounted(cfg: Config, s: State, op: nat)
    requires ValidConfig(cfg) && op !in s.ops && s.logUsed + OP_MAX_NUM_BLOCKS <= LogSize(cfg)
    requires Accounted(cfg, s.ops, s.outstanding, s.logUsed, s.header.n, false)
    ensures s.ops[op := OP_MAX_NUM_BLOCKS].Keys == s.ops.Keys + {op}
    ensures Accounted(cfg, s.ops[op := OP_MAX_NUM_BLOCKS], s.outstanding + 1, s.logUsed + OP_MAX_NUM_BLOCKS,
            s.header.n, false)
  {
    hide Sum, LogSize;
    var ops := s.ops[op := OP_MAX_NUM_BLOCKS];
    SumUpdate(s.ops, op, OP_MAX_NUM_BLOCKS);
    assert ops.Keys == s.ops.Keys + {op} && |ops| == |ops.Keys|;
  }

  lemma {:induction false} BeginKeeps(cfg: Config, s: State, a: Abstract, op: nat)
    requires s.phase.Idle? && op !in s.ops && ValidConfig(cfg) && s.logUsed + OP_MAX_NUM_BLOCKS <= LogSize(cfg)
    requires Live(cfg, s, a)
    ensures op !in a.ops && Inv(cfg, AfterBegin(s, op), After(a, Began(op)))
  {
    hide DurableOnDisk, ValidHeader, RestOnDisk, SlotsFilled, SlotsShown, HomesShown, EntriesPinned, OnDisk, Accounted,
      LogSize;
    BeginAccounted(cfg, s, op);
  }

  lemma {:induction false} ModifyKeeps(cfg: Config, s: State, a: Abstract, op: nat, b: nat, data: Block)
    requires Live(cfg, s, a) && Enabled(cfg, s, Modify(op, b, data))
    ensures Inv(cfg, AfterModify(s, op, b, data), a)
  {
    hide DurableOnDisk, ValidHeader, RestOnDisk, SlotsFilled, Phased, Accounted;
  }

  /** Syncing a block that already has an entry. */
  lemma {:induction false} ResyncKeeps(cfg: Config, s: State, a: Abstract, op: nat, b: nat)
    requires Live(cfg, s, a) && Enabled(cfg, s, Sync(op, b)) && IndexOf(s.header, b, 0) < s.header.n
    ensures op in a.ops && Inv(cfg, s.(dirty := s.dirty - {b}), After(a, Synced(op, b, s.cache[b].data)))
  {
    hide DurableOnDisk, ValidHeader, Accounted, SlotsShown, EntriesPinned, OnDisk;
    var a' := After(a, Synced(op, b, s.cache[b].data));
    assert s.header.nos[IndexOf(s.header, b, 0)] == b;
    assert HasEntry(s.header, 0, b);
  }

  function Extended(h: Header, b: nat): Header
    requires h.n < |h.nos|
  {
    Header(h.n + 1, h.nos[h.n := b])
  }

  lemma {:induction false} ExtendedHeader(cfg: Config, h: Header, b: nat)
    requires ValidConfig(cfg) && ValidHeader(cfg, h) && h.n < LogSize(cfg) && Home(cfg, b) && Wide(b)
             && IndexOf(h, b, 0) == h.n
    ensures ValidHeader(cfg, Extended(h, b)) && h.nos[..h.n] == Extended(h, b).nos[..h.n]
    ensures forall lo: nat, c: nat :: HasEntry(Extended(h, b), lo, c) <==> HasEntry(h, lo, c) || (lo <= h.n && c == b)
  {
    var h' := Extended(h, b);
    forall lo: nat, c: nat ensures HasEntry(h', lo, c) <==> HasEntry(h, lo, c) || (lo <= h.n && c == b) {
      if HasEntry(h, lo, c) {
        var i :| lo <= i < h.n && h.nos[i] == c;
        assert h'.nos[i] == c;
      }
      if lo <= h.n && c == b {
        assert h'.nos[h.n] == c;
      }
    }
  }

  lemma {:induction false} FirstSyncShown(cfg: Config, s: State, view: Disk, b: nat)
    requires ValidConfig(cfg) && ValidHeader(cfg, s.header) && s.header.n < LogSize(cfg) && Home(cfg, b) && Wide(b)
             && IndexOf(s.header, b, 0) == s.header.n
    requires b in s.cache && b !in s.loading
    requires EntriesPinned(s.header, s.cache, s.loading, 0) && RestOnDisk(cfg, s.disk, s.header, view, 0)
    requires HomesShown(cfg, s.cache, s.loading, s.dirty.Keys, s.header, view, false, 0)
             && SlotsShown(cfg, s.disk, s.cache, s.loading)
    ensures var cache', h', view' := s.cache[b := s.cache[b].(pinned := true)], Extended(s.header, b),
            view[b := s.cache[b].data];
            && EntriesPinned(h', cache', s.loading, 0) && RestOnDisk(cfg, s.disk, h', view', 0)
            && HomesShown(cfg, cache', s.loading, (s.dirty - {b}).Keys, h', view', false, 0)
              && SlotsShown(cfg, s.disk, cache', s.loading)
  {
    ExtendedHeader(cfg, s.header, b);
    hide ValidHeader, HasEntry;
    var h', view' := Extended(s.header, b), view[b := s.cache[b].data];
    assert forall c: nat :: c != b ==> At(view', c) == At(view, c);
    assert HasEntry(h', 0, b);
    assert forall i :: 0 <= i < s.header.n ==> h'.nos[i] == s.header.nos[i];
  }

  lemma {:induction false} FirstSyncAccounted(cfg: Config, s: State, op: nat)
    requires ValidConfig(cfg) && op in s.ops && s.ops[op] > 0
             && Accounted(cfg, s.ops, s.outstanding, s.logUsed, s.header.n, false)
    ensures s.header.n < LogSize(cfg) && s.ops[op := s.ops[op] - 1].Keys == s.ops.Keys
    ensures Accounted(cfg, s.ops[op := s.ops[op] - 1], s.outstanding, s.logUsed, s.header.n + 1, false)
  {
    hide Sum;
    var ops := s.ops[op := s.ops[op] - 1];
    SumUpdate(s.ops, op, s.ops[op] - 1);
    SumWithout(s.ops, op);
    assert ops.Keys == s.ops.Keys && |ops| == |ops.Keys|;
  }

  /** Syncing a block for the first time in its group adds a header entry, pins the block and uses up a reservation. */
  lemma {:induction false} FirstSyncKeeps(cfg: Config, s: State, a: Abstract, op: nat, b: nat)
    requires b in s.cache && b !in s.loading && b in s.held && Home(cfg, b) && Wide(b) && op in s.ops && s.ops[op] > 0
    requires s.header.n < |s.header.nos| && IndexOf(s.header, b, 0) == s.header.n
    requires Live(cfg, s, a)
    ensures op in a.ops && Inv(cfg, AfterSync(s, op, b), After(a, Synced(op, b, s.cache[b].data)))
  {
    hide DurableOnDisk, ValidHeader, OnDisk, Accounted, EntriesPinned, RestOnDisk, HomesShown, SlotsShown;
    assert s.phase == Idle;
    FirstSyncAccounted(cfg, s, op);
    FirstSyncShown(cfg, s, a.view, b);
    ExtendedHeader(cfg, s.header, b);
  }

  lemma {:induction false} EndAccounted(cfg: Config, s: State, op: nat)
    requires ValidConfig(cfg) && op in s.ops && Accounted(cfg, s.ops, s.outstanding, s.logUsed, s.header.n, false)
    ensures s.outstanding > 0 && s.logUsed >= s.ops[op] && (s.ops - {op}).Keys == s.ops.Keys - {op}
    ensures Accounted(cfg, s.ops - {op}, s.outstanding - 1, s.logUsed - s.ops[op], s.header.n, false)
    ensures s.outstanding == 1 <==> s.ops.Keys == {op}
  {
    hide Sum, LogSize;
    SumWithout(s.ops, op);
    assert (s.ops - {op}).Keys == s.ops.Keys - {op} && |s.ops| == |s.ops.Keys|
      && |s.ops - {op}| == |(s.ops - {op}).Keys|;
    assert s.ops.Keys - {op} == {} <==> s.ops.Keys == {op};
  }

  lemma {:induction false} EndKeeps(cfg: Config, s: State, a: Abstract, op: nat)
    requires op in s.ops && s.outstanding > 0 && s.logUsed >= s.ops[op] && op !in s.dirty.Values
    requires Live(cfg, s, a)
    ensures op in a.ops && Inv(cfg, AfterEnd(s, op), After(a, Ended(op)))
  {
    hide DurableOnDisk, ValidHeader, RestOnDisk, SlotsShown, HomesShown, EntriesPinned, OnDisk, Accounted;
    assert s.phase == Idle;
    EndAccounted(cfg, s, op);
    assert forall b <- s.dirty :: s.dirty[b] in s.dirty.Values;
  }

  // The commit: copy to the log, write the header, install, clear the header.

  lemma {:induction false} SlotsAreLog(cfg: Config, h: Header, i: nat)
    requires ValidConfig(cfg) && ValidHeader(cfg, h) && i < h.n
    ensures Slot(cfg, i) != cfg.logStart && !Home(cfg, Slot(cfg, i)) && Home(cfg, h.nos[i]) && h.nos[i] != cfg.logStart
    ensures !Home(cfg, cfg.logStart)
  {
  }

  /** A write to a log slot does not matter to recovery while the header is clear. */
  lemma {:induction false} SlotWriteHarmless(cfg: Config, disk: Disk, durable: Disk, x: nat, data: Block)
    requires ValidConfig(cfg) && DurableOnDisk(cfg, disk, durable) && OnDisk(cfg, disk).n == 0 && x != cfg.logStart
             && !Home(cfg, x)
    ensures var disk' := disk[x := data]; OnDisk(cfg, disk') == OnDisk(cfg, disk) && DurableOnDisk(cfg, disk', durable)
  {
    hide DecodeHeader, Encodable;
    RecoveredClear(cfg, disk);
    RecoveredClear(cfg, disk[x := data]);
  }

  lemma {:induction false} CopyShown(cfg: Config, s: State, view: Disk, i: nat)
    requires ValidConfig(cfg) && ValidHeader(cfg, s.header) && i < s.header.n && Slot(cfg, i) in s.cache
    requires SlotsShown(cfg, s.disk, s.cache, s.loading) && EntriesPinned(s.header, s.cache, s.loading, 0)
    requires HomesShown(cfg, s.cache, s.loading, s.dirty.Keys, s.header, view, s.booting, 0)
    ensures var x, data := Slot(cfg, i), At(view, s.header.nos[i]);
            var disk', cache' := s.disk[x := data], s.cache[x := s.cache[x].(data := data)];
            && SlotsShown(cfg, disk', cache', s.loading) && EntriesPinned(s.header, cache', s.loading, 0)
            && HomesShown(cfg, cache', s.loading, s.dirty.Keys, s.header, view, s.booting, 0)
  {
    SlotsAreLog(cfg, s.header, i);
    hide ValidHeader, HasEntry;
    var x, data := Slot(cfg, i), At(view, s.header.nos[i]);
    assert forall b: nat :: b != x ==> At(s.disk[x := data], b) == At(s.disk, b);
  }

  lemma {:induction false} CopyOnDisk(cfg: Config, disk: Disk, h: Header, view: Disk, i: nat)
    requires ValidConfig(cfg) && ValidHeader(cfg, h) && i < h.n && RestOnDisk(cfg, disk, h, view, 0)
             && SlotsFilled(cfg, disk, h, view, i)
    ensures var disk' := disk[Slot(cfg, i) := At(view, h.nos[i])];
            RestOnDisk(cfg, disk', h, view, 0) && SlotsFilled(cfg, disk', h, view, i + 1)
  {
    SlotsAreLog(cfg, h, i);
    hide ValidHeader, HasEntry;
    var disk' := disk[Slot(cfg, i) := At(view, h.nos[i])];
    assert forall b: nat :: b != Slot(cfg, i) ==> At(disk', b) == At(disk, b);
  }

  lemma {:induction false} CopySource(cfg: Config, s: State, a: Abstract, i: nat)
    requires s.phase == Copy(i) && i < s.header.n <= |s.header.nos| && HeldByCommitter(s, s.header.nos[i])
    requires Live(cfg, s, a)
    ensures s.cache[s.header.nos[i]].data == At(a.view, s.header.nos[i])
  {
    SlotsAreLog(cfg, s.header, i);
    hide DurableOnDisk, OnDisk, Accounted, ValidHeader, EntriesPinned, RestOnDisk, SlotsShown, SlotsFilled;
    assert s.dirty.Keys == {};
  }

  lemma {:induction false} CopyKeeps(cfg: Config, s: State, a: Abstract, i: nat)
    requires s.phase == Copy(i) && i < s.header.n <= |s.header.nos| && HeldByCommitter(s, Slot(cfg, i))
             && HeldByCommitter(s, s.header.nos[i])
    requires Live(cfg, s, a)
    ensures Inv(cfg, AfterCopy(cfg, s, i), a)
  {
    hide DurableOnDisk, OnDisk, Accounted, ValidHeader, HomesShown, SlotsShown, EntriesPinned, RestOnDisk, SlotsFilled,
      Locks, Home;
    CopySource(cfg, s, a, i);
    assert AfterCopy(cfg, s, i).cache.Keys == s.cache.Keys;
    CopyShown(cfg, s, a.view, i);
    CopyOnDisk(cfg, s.disk, s.header, a.view, i);
    SlotsAreLog(cfg, s.header, i);
    SlotWriteHarmless(cfg, s.disk, a.durable, Slot(cfg, i), s.cache[s.header.nos[i]].data);
  }

  /** The commit point: afterwards recovery restores the whole group. */
  lemma {:induction false} CommitDurable(cfg: Config, s: State, view: Disk)
    requires ValidConfig(cfg) && ValidHeader(cfg, s.header) && RestOnDisk(cfg, s.disk, s.header, view, 0)
             && SlotsFilled(cfg, s.disk, s.header, view, s.header.n)
    ensures var disk' := s.disk[cfg.logStart := EncodeHeader(s.header)];
            OnDisk(cfg, disk') == s.header && DurableOnDisk(cfg, disk', view)
  {
    hide DecodeHeader, EncodeHeader;
    var disk' := s.disk[cfg.logStart := EncodeHeader(s.header)];
    HeaderRoundTrip(s.header);
    assert OnDisk(cfg, disk') == s.header;
    RecoveredCases(cfg, disk');
    forall b: nat | Home(cfg, b) ensures At(view, b) == Recovered(cfg, disk', b) {
      if HasEntry(s.header, 0, b) {
        var i :| 0 <= i < s.header.n && s.header.nos[i] == b;
        SlotsAreLog(cfg, s.header, i);
      }
    }
  }

  /** Writing the header block disturbs neither slots nor home blocks. */
  lemma {:induction false} HeaderElsewhere(cfg: Config, disk: Disk, data: Block, cache: map<nat, Cached>,
                                           loading: set<nat>, h: Header, view: Disk, lo: nat, hi: nat)
    requires ValidConfig(cfg) && h.n <= |h.nos| && hi <= |h.nos| && cfg.logStart !in cache
    requires SlotsShown(cfg, disk, cache, loading) && RestOnDisk(cfg, disk, h, view, lo)
    requires SlotsFilled(cfg, disk, h, view, hi)
    ensures var disk' := disk[cfg.logStart := data];
            SlotsShown(cfg, disk', cache, loading) && RestOnDisk(cfg, disk', h, view, lo)
              && SlotsFilled(cfg, disk', h, view, hi)
  {
    var disk' := disk[cfg.logStart := data];
    assert forall b: nat :: b != cfg.logStart ==> At(disk', b) == At(disk, b);
  }

  lemma {:induction false} WriteHeaderKeeps(cfg: Config, s: State, a: Abstract)
    requires Live(cfg, s, a) && Enabled(cfg, s, WriteHeader)
    ensures a.ops == {} && Inv(cfg, AfterWriteHeader(cfg, s), After(a, Committed))
  {
    hide DurableOnDisk, OnDisk, ValidHeader, EncodeHeader, Sum, HomesShown, EntriesPinned;
    hide SlotsShown, RestOnDisk, SlotsFilled;
    CommitDurable(cfg, s, a.view);
    HeaderElsewhere(cfg, s.disk, EncodeHeader(s.header), s.cache, s.loading, s.header, a.view, 0, s.header.n);
  }

  lemma {:induction false} OnDiskSame(cfg: Config, disk: Disk, disk': Disk)
    requires At(disk', cfg.logStart) == At(disk, cfg.logStart)
    ensures OnDisk(cfg, disk') == OnDisk(cfg, disk)
  {
  }

  /** Replaying an entry that is already in place gives the same block. */
  lemma {:induction false} ReplayedAgain(cfg: Config, d: Disk, d': Disk, h: Header, i: nat, n: nat, b: nat)
    requires ValidConfig(cfg) && ValidHeader(cfg, h) && i < h.n && n <= h.n && (i < n || b != h.nos[i])
    requires d' == d[h.nos[i] := At(d, Slot(cfg, i))]
    ensures Replayed(cfg, d', h, n, b) == Replayed(cfg, d, h, n, b)
    decreases n
  {
    if n > 0 {
      SlotsAreLog(cfg, h, i);
      if h.nos[n - 1] != b {
        ReplayedAgain(cfg, d, d', h, i, n - 1, b);
      }
    }
  }

  lemma {:induction false} InstallDurable(cfg: Config, disk: Disk, durable: Disk, h: Header, i: nat, data: Block)
    requires ValidConfig(cfg) && DurableOnDisk(cfg, disk, durable) && OnDisk(cfg, disk) == h && i < h.n
             && data == At(disk, Slot(cfg, i))
    ensures var disk' := disk[h.nos[i] := data]; OnDisk(cfg, disk') == h && DurableOnDisk(cfg, disk', durable)
  {
    hide DecodeHeader, Encodable, OnDisk, Replayed;
    var disk' := disk[h.nos[i] := data];
    SlotsAreLog(cfg, h, i);
    OnDiskSame(cfg, disk, disk');
    hide ValidHeader;
    forall b: nat | Home(cfg, b) ensures At(durable, b) == Recovered(cfg, disk', b) {
      ReplayedAgain(cfg, disk, disk', h, i, h.n, b);
    }
  }

  lemma {:induction false} InstallEntries(cfg: Config, h: Header, i: nat)
    requires ValidConfig(cfg) && ValidHeader(cfg, h) && i < h.n
    ensures forall j :: i < j < h.n ==> h.nos[j] != h.nos[i]
    ensures forall j: nat :: j < h.n ==> !Home(cfg, Slot(cfg, j))
    ensures forall b: nat :: HasEntry(h, i, b) <==> b == h.nos[i] || HasEntry(h, i + 1, b)
  {
  }

  lemma {:induction false} InstallOnDisk(cfg: Config, disk: Disk, h: Header, view: Disk, i: nat)
    requires ValidConfig(cfg) && ValidHeader(cfg, h) && i < h.n
    requires RestOnDisk(cfg, disk, h, view, i) && SlotsFilled(cfg, disk, h, view, h.n)
    ensures var disk' := disk[h.nos[i] := At(view, h.nos[i])];
            RestOnDisk(cfg, disk', h, view, i + 1) && SlotsFilled(cfg, disk', h, view, h.n)
  {
    SlotsAreLog(cfg, h, i);
    InstallEntries(cfg, h, i);
    hide ValidHeader, HasEntry;
    var disk' := disk[h.nos[i] := At(view, h.nos[i])];
    assert forall b: nat :: b != h.nos[i] ==> At(disk', b) == At(disk, b);
  }

  lemma {:induction false} InstallInCache(cfg: Config, s: State, view: Disk, i: nat)
    requires ValidConfig(cfg) && ValidHeader(cfg, s.header) && i < s.header.n && s.header.nos[i] in s.cache
    requires SlotsShown(cfg, s.disk, s.cache, s.loading)
             && (s.booting || EntriesPinned(s.header, s.cache, s.loading, i))
    requires HomesShown(cfg, s.cache, s.loading, s.dirty.Keys, s.header, view, s.booting, i)
    ensures var y := s.header.nos[i]; var data := At(view, y);
            var disk', cache' := s.disk[y := data], s.cache[y := Cached(data, false)];
            && SlotsShown(cfg, disk', cache', s.loading)
              && (s.booting || EntriesPinned(s.header, cache', s.loading, i + 1))
            && HomesShown(cfg, cache', s.loading, s.dirty.Keys, s.header, view, s.booting, i + 1)
  {
    SlotsAreLog(cfg, s.header, i);
    InstallEntries(cfg, s.header, i);
    hide ValidHeader, HasEntry;
    var y := s.header.nos[i];
    assert forall b: nat :: b != y ==> At(s.disk[y := At(view, y)], b) == At(s.disk, b);
  }

  lemma {:induction false} InstallKeeps(cfg: Config, s: State, a: Abstract, i: nat)
    requires s.phase == Install(i) && i < s.header.n <= |s.header.nos| && HeldByCommitter(s, Slot(cfg, i))
             && HeldByCommitter(s, s.header.nos[i])
    requires Live(cfg, s, a)
    ensures Inv(cfg, AfterInstall(cfg, s, i), a)
  {
    hide DurableOnDisk, OnDisk, Accounted, ValidHeader, SameHomes, HomesShown, SlotsShown, EntriesPinned, RestOnDisk,
      SlotsFilled, Locks, Home;
    InstallSource(cfg, s, a, i);
    InstallOnDisk(cfg, s.disk, s.header, a.view, i);
    InstallInCache(cfg, s, a.view, i);
    InstallDurable(cfg, s.disk, a.durable, s.header, i, s.cache[Slot(cfg, i)].data);
    assert AfterInstall(cfg, s, i).cache.Keys == s.cache.Keys;
  }

  lemma {:induction false} InstallSource(cfg: Config, s: State, a: Abstract, i: nat)
    requires s.phase == Install(i) && i < s.header.n <= |s.header.nos| && HeldByCommitter(s, Slot(cfg, i))
    requires Live(cfg, s, a)
    ensures s.cache[Slot(cfg, i)].data == At(s.disk, Slot(cfg, i)) == At(a.view, s.header.nos[i])
  {
    SlotsAreLog(cfg, s.header, i);
    hide DurableOnDisk, OnDisk, Accounted, ValidHeader, SameHomes, HomesShown, EntriesPinned, RestOnDisk;
  }

  lemma {:induction false} BootReadKeeps(cfg: Config, s: State, a: Abstract)
    requires Inv(cfg, s, a) && s.phase.Boot?
    ensures Inv(cfg, AfterBootRead(cfg, s), a)
  {
    hide DecodeHeader, Encodable;
    RecoveredCases(cfg, s.disk);
  }

  lemma {:induction false} ClearDurable(cfg: Config, disk: Disk, h: Header, durable: Disk)
    requires ValidConfig(cfg) && ValidHeader(cfg, h) && h.n == 0
    requires forall b: nat :: Home(cfg, b) ==> At(disk, b) == At(durable, b)
    ensures var disk' := disk[cfg.logStart := EncodeHeader(h)];
            OnDisk(cfg, disk').n == 0 && DurableOnDisk(cfg, disk', durable)
  {
    hide DecodeHeader, EncodeHeader, Encodable;
    HeaderRoundTrip(h);
    RecoveredClear(cfg, disk[cfg.logStart := EncodeHeader(h)]);
  }

  lemma {:induction false} ClearAccounted(cfg: Config, ops: map<nat, nat>, outstanding: nat, logUsed: nat, n: nat)
    requires ValidConfig(cfg) && Accounted(cfg, ops, outstanding, logUsed, n, true)
    ensures Accounted(cfg, ops, outstanding, logUsed, 0, false)
  {
  }

  /** With every entry installed, nothing but the header itself depends on the header. */
  lemma {:induction false} ClearShown(cfg: Config, s: State, view: Disk, data: Block)
    requires ValidConfig(cfg) && s.header.n <= |s.header.nos| && cfg.logStart !in s.cache
    requires SlotsShown(cfg, s.disk, s.cache, s.loading) && RestOnDisk(cfg, s.disk, s.header, view, s.header.n)
    requires HomesShown(cfg, s.cache, s.loading, s.dirty.Keys, s.header, view, s.booting, s.header.n)
    ensures var disk', h := s.disk[cfg.logStart := data], s.header.(n := 0);
            && SlotsShown(cfg, disk', s.cache, s.loading) && RestOnDisk(cfg, disk', h, view, 0)
              && SlotsFilled(cfg, disk', h, view, 0)
            && HomesShown(cfg, s.cache, s.loading, s.dirty.Keys, h, view, false, 0)
              && EntriesPinned(h, s.cache, s.loading, 0)
  {
    assert forall b: nat :: !HasEntry(s.header, s.header.n, b);
  }

  lemma {:induction false} InstalledHomes(cfg: Config, disk: Disk, h: Header, view: Disk, durable: Disk, b: nat)
    requires h.n <= |h.nos| && RestOnDisk(cfg, disk, h, view, h.n) && SameHomes(cfg, view, durable) && Home(cfg, b)
    ensures At(disk, b) == At(durable, b)
  {
    assert !HasEntry(h, h.n, b);
  }

  lemma {:induction false} ClearedHeader(cfg: Config, h: Header)
    requires ValidConfig(cfg) && ValidHeader(cfg, h)
    ensures ValidHeader(cfg, h.(n := 0))
  {
  }

  lemma {:induction false} ClearKeeps(cfg: Config, s: State, a: Abstract)
    requires Live(cfg, s, a) && Enabled(cfg, s, ClearHeader)
    ensures Inv(cfg, AfterClear(cfg, s), a)
  {
    hide DurableOnDisk, OnDisk, EncodeHeader, Accounted, ValidHeader, SlotsShown, RestOnDisk, HomesShown,
      EntriesPinned, SlotsFilled, SameHomes;
    var h := s.header.(n := 0);
    assert s.header.n <= |s.header.nos| by { HeaderFits(cfg, s.header); }
    ClearedHeader(cfg, s.header);
    ClearAccounted(cfg, s.ops, s.outstanding, s.logUsed, s.header.n);
    forall b: nat | Home(cfg, b) ensures At(s.disk, b) == At(a.durable, b) {
      InstalledHomes(cfg, s.disk, s.header, a.view, a.durable, b);
    }
    ClearDurable(cfg, s.disk, h, a.durable);
    ClearShown(cfg, s, a.view, EncodeHeader(h));
  }

  lemma {:induction false} HeaderFits(cfg: Config, h: Header)
    requires ValidConfig(cfg) && ValidHeader(cfg, h)
    ensures h.n <= |h.nos|
  {
  }

  lemma {:induction false} CrashKeeps(cfg: Config, s: State, a: Abstract)
    requires Inv(cfg, s, a)
    ensures Inv(cfg, Rebooted(s.disk), After(a, Crashed))
  {
    hide DurableOnDisk;
  }
}
