/**
 Crash atomicity, cache transparency and log accounting: an invariant that every
 action keeps, tying the machine to the view and the durable state it promises.
 */
module WalSafety {
  import opened Blocks
  import opened Wal
  import opened Sums

  // The invariant.

  ghost predicate HasEntry(h: Header, lo: nat, b: nat)
    requires h.n <= |h.nos|
  {
    exists i :: lo <= i < h.n && h.nos[i] == b
  }

  // Each part of the invariant names only the fields it depends on.

  /** Locks: loading and dirty blocks are held, held blocks are cached, clients stay outside the log area. */
  ghost predicate Locks(cfg: Config, cached: set<nat>, held: map<nat, Holder>, loading: set<nat>, dirty: map<nat, nat>,
                        ops: set<nat>, booting: bool)
  {
    && held.Keys <= cached && loading <= held.Keys && dirty.Keys <= held.Keys
    && cfg.logStart !in cached
    && (forall b <- held :: held[b].Client? ==> Home(cfg, b) && !booting)
    && (forall b <- dirty :: held[b].Client? && b !in loading && dirty[b] in ops)
  }

  /** A cached log slot shows what is on disk. */
  ghost predicate SlotsShown(cfg: Config, disk: Disk, cache: map<nat, Cached>, loading: set<nat>)
  {
    forall b <- cache :: !Home(cfg, b) && b !in loading ==> cache[b].data == At(disk, b)
  }

  /** Entries from `lo` on are in the cache, loaded, and cannot be evicted. */
  ghost predicate EntriesPinned(h: Header, cache: map<nat, Cached>, loading: set<nat>, lo: nat)
    requires h.n <= |h.nos|
  {
    forall i :: lo <= i < h.n ==> h.nos[i] in cache && cache[h.nos[i]].pinned && h.nos[i] !in loading
  }

  /** Home blocks without an entry from `lo` on have the viewed content on disk. */
  ghost predicate RestOnDisk(cfg: Config, disk: Disk, h: Header, view: Disk, lo: nat)
    requires h.n <= |h.nos|
  {
    forall b: nat :: Home(cfg, b) && !HasEntry(h, lo, b) ==> At(disk, b) == At(view, b)
  }

  /** A clean cached home block shows its last synced content; while booting, entries from `lo` on are still stale. */
  ghost predicate HomesShown(cfg: Config, cache: map<nat, Cached>, loading: set<nat>, dirty: set<nat>, h: Header,
                             view: Disk,
                             booting: bool, lo: nat)
    requires h.n <= |h.nos|
  {
    forall b <- cache :: Home(cfg, b) && b !in loading && b !in dirty && !(booting && HasEntry(h, lo, b)) ==>
      cache[b].data == At(view, b)
  }

  /** The first `k` slots hold the viewed content of their entries. */
  ghost predicate SlotsFilled(cfg: Config, disk: Disk, h: Header, view: Disk, k: nat)
    requires k <= |h.nos|
  {
    forall i :: 0 <= i < k ==> At(disk, Slot(cfg, i)) == At(view, h.nos[i])
  }

  /** `log_used` is the header count plus all live reservations, outside the second half of a commit. */
  ghost predicate Accounted(cfg: Config, ops: map<nat, nat>, outstanding: nat, logUsed: nat, n: nat, installing: bool)
    requires ValidConfig(cfg)
  {
    outstanding == |ops| && logUsed == Sum(ops) + (if installing then 0 else n) && logUsed <= LogSize(cfg)
  }

  /** What recovery would restore is the durable state. */
  ghost predicate DurableOnDisk(cfg: Config, disk: Disk, durable: Disk)
    requires ValidConfig(cfg)
  {
    ValidHeader(cfg, OnDisk(cfg, disk)) && forall b: nat :: Home(cfg, b) ==> At(durable, b) == Recovered(cfg, disk, b)
  }

  ghost predicate SameHomes(cfg: Config, view: Disk, durable: Disk)
  {
    forall b: nat :: Home(cfg, b) ==> At(view, b) == At(durable, b)
  }

  /** What each phase of a commit knows about the header on disk and about running operations. */
  ghost predicate Phased(cfg: Config, disk: Disk, h: Header, phase: Phase, booting: bool, ops: set<nat>, view: Disk,
                         durable: Disk)
  {
    match phase
    case Idle => !booting && OnDisk(cfg, disk).n == 0
    case Copy(i) => !booting && OnDisk(cfg, disk).n == 0 && ops == {} && i <= h.n
    case Install(i) => OnDisk(cfg, disk) == h && ops == {} && i <= h.n && SameHomes(cfg, view, durable)
    case Boot => false
  }

  /** Entries below this index are already installed. */
  ghost function Lo(phase: Phase): nat
  {
    if phase.Install? then phase.i else 0
  }

  /** Slots below this index hold what they should. */
  ghost function Hi(phase: Phase, n: nat): nat
  {
    match phase
    case Copy(i) => i
    case Install(_) => n
    case _ => 0
  }

  ghost predicate Running(cfg: Config, s: State, a: Abstract)
    requires ValidConfig(cfg)
  {
    && ValidHeader(cfg, s.header) && a.ops == s.ops.Keys
    && Phased(cfg, s.disk, s.header, s.phase, s.booting, a.ops, a.view, a.durable)
    && Locks(cfg, s.cache.Keys, s.held, s.loading, s.dirty, a.ops, s.booting)
    && Accounted(cfg, s.ops, s.outstanding, s.logUsed, s.header.n, s.phase.Install?)
    && SlotsShown(cfg, s.disk, s.cache, s.loading)
    && (s.booting || EntriesPinned(s.header, s.cache, s.loading, Lo(s.phase)))
    && RestOnDisk(cfg, s.disk, s.header, a.view, Lo(s.phase))
    && HomesShown(cfg, s.cache, s.loading, s.dirty.Keys, s.header, a.view, s.booting, Lo(s.phase))
    && Hi(s.phase, s.header.n) <= |s.header.nos| && SlotsFilled(cfg, s.disk, s.header, a.view, Hi(s.phase, s.header.n))
  }

  ghost predicate Inv(cfg: Config, s: State, a: Abstract)
  {
    && ValidConfig(cfg) && |s.header.nos| == LOG_MAX_SIZE && DurableOnDisk(cfg, s.disk, a.durable)
    && if s.phase.Boot? then s == Rebooted(s.disk) && a == Abstract(a.durable, a.durable, {}) else Running(cfg, s, a)
  }

  // Facts about replay.

  lemma {:induction false} ReplayOther(cfg: Config, d: Disk, h: Header, n: nat, b: nat)
    requires n <= |h.nos| && forall i :: 0 <= i < n ==> h.nos[i] != b
    ensures Replayed(cfg, d, h, n, b) == At(d, b)
  {
    if n > 0 {
      ReplayOther(cfg, d, h, n - 1, b);
    }
  }

  lemma {:induction false} ReplayEntry(cfg: Config, d: Disk, h: Header, n: nat, k: nat)
    requires k < n <= |h.nos| && forall i, j :: 0 <= i < j < n ==> h.nos[i] != h.nos[j]
    ensures Replayed(cfg, d, h, n, h.nos[k]) == At(d, Slot(cfg, k))
  {
    if k < n - 1 {
      ReplayEntry(cfg, d, h, n - 1, k);
    }
  }

  /** The log slot of a block that the header on disk lists holds its recovered content; others keep theirs. */
  lemma {:induction false} RecoveredIs(cfg: Config, d: Disk, b: nat, i: nat)
    requires ValidConfig(cfg) && ValidHeader(cfg, OnDisk(cfg, d)) && i < 63
    ensures var h := At(d, cfg.logStart);
            && Eight(h, 0) <= 63
            && (i < Eight(h, 0) && Eight(h, 8 + 8 * i) == b ==> Recovered(cfg, d, b) == At(d, cfg.logStart + 1 + i))
            && ((forall j: nat | j < Eight(h, 0) :: Eight(h, 8 + 8 * j) != b) ==> Recovered(cfg, d, b) == At(d, b))
  {
    hide DecodeHeader, Eight;
    var h, r := At(d, cfg.logStart), OnDisk(cfg, d);
    HeaderLayout(h, i);
    if i < r.n && r.nos[i] == b {
      ReplayEntry(cfg, d, r, r.n, i);
    } else if forall j: nat | j < Eight(h, 0) :: Eight(h, 8 + 8 * j) != b {
      forall j: nat | j < r.n ensures r.nos[j] != b {
        HeaderLayout(h, j);
      }
      ReplayOther(cfg, d, r, r.n, b);
    }
  }

  /** With a clear header, recovery changes no home block. */
  lemma {:induction false} RecoveredClear(cfg: Config, d: Disk)
    requires ValidConfig(cfg) && ValidHeader(cfg, OnDisk(cfg, d)) && OnDisk(cfg, d).n == 0
    ensures forall b: nat :: Recovered(cfg, d, b) == At(d, b)
  {
  }

  /** Recovery as a case distinction: entries come from their slots, everything else stays. */
  lemma {:induction false} RecoveredCases(cfg: Config, d: Disk)
    requires ValidConfig(cfg) && ValidHeader(cfg, OnDisk(cfg, d))
    ensures var h := OnDisk(cfg, d);
            && (forall i :: 0 <= i < h.n ==> Recovered(cfg, d, h.nos[i]) == At(d, Slot(cfg, i)))
            && (forall b: nat :: !HasEntry(h, 0, b) ==> Recovered(cfg, d, b) == At(d, b))
  {
    var h := OnDisk(cfg, d);
    forall i | 0 <= i < h.n ensures Recovered(cfg, d, h.nos[i]) == At(d, Slot(cfg, i)) {
      ReplayEntry(cfg, d, h, h.n, i);
    }
    forall b: nat | !HasEntry(h, 0, b) ensures Recovered(cfg, d, b) == At(d, b) {
      ReplayOther(cfg, d, h, h.n, b);
    }
  }
}
