/**
 The block cache as code: one LRU list searched, reordered and trimmed by loops, the
 in-memory header, and the commit and recovery loops. A ghost history follows along, so
 that whatever the methods do is a run of the step machine.
 */
module BlockCache {
  import opened Blocks
  import opened Lru
  import opened Wal
  import opened WalSafety
  import opened WalSteps
  import opened WalTheorem
  import opened CacheHistory

  /** What becomes of a change: the block is held by another, the sync panics, or it is made. */
  datatype Reply = Held | Refused | Written

  class Cache {
    const cfg: Config
    ghost const good: Disk -> bool   // what clients see to whenever none of them is in an operation
    var disk: Disk
    var list: seq<Buf>
    var header: Header
    var logUsed: nat
    var outstanding: nat
    var committing: bool
    var ops: map<nat, nat>   // `rm` of every `OpContext`
    ghost var origin: Disk
    ghost var acts: seq<Action>
    ghost var es: seq<Event>
    ghost var st: State

    /** What clients have been promised so far. */
    ghost function Now(): Abstract
      reads this
    {
      Promise(cfg, origin, es)
    }

    ghost predicate Mirrors()
      reads this
    {
      && ValidConfig(cfg) && Followed(cfg, origin, acts, es, st)
      && st.disk == disk && st.header == header && header.n <= |header.nos| == LOG_MAX_SIZE
      && st.logUsed == logUsed && st.outstanding == outstanding && st.ops == ops && st.loading == {}
      && Shows(list, st.cache, st.held.Keys) && Recent(list, Ages(acts)) && QuietGood(good, cfg, origin, es)
    }

    /** Between calls: no commit is under way. */
    ghost predicate Valid()
      reads this
    {
      Mirrors() && st.phase.Idle? && !st.booting && !committing && OnlyClients(st.held)
    }

    /** `init_bcache`: replay what the log on disk has committed. */
    constructor (cfg: Config, disk: Disk, ghost good: Disk -> bool)
      requires ValidConfig(cfg) && ValidHeader(cfg, OnDisk(cfg, disk)) && good(Initially(cfg, disk).view)
      ensures st.held == map[] && header.n == 0 && logUsed == 0
      ensures Valid() && this.cfg == cfg && this.good == good && origin == disk && ops == map[]
              && Now() == Initially(cfg, disk)
      ensures forall b: nat :: Home(cfg, b) ==> At(this.disk, b) == Recovered(cfg, disk, b)
    {
      hide Inv, ValidHeader, Initially, DecodeHeader, Recovered;
      this.cfg, this.disk, list, committing := cfg, disk, [], false;
      this.good := good;
      header, logUsed, outstanding, ops := DecodeHeader(At(disk, cfg.logStart)), 0, 0, map[];
      origin, acts, es, st := disk, [], [], Rebooted(disk);
      new;
      assert Now() == Initially(cfg, disk);
      assert QuietGood(good, cfg, origin, []) by { assert es[..0] == []; }
      hide Followed, Promise, Run, QuietGood;
      Recover();
      InitiallyRecovered(cfg, disk);
    }

    /** Read the header and replay the log. */
    method Recover()
      requires ValidConfig(cfg) && Followed(cfg, origin, acts, es, st) && st == Rebooted(disk)
               && header == DecodeHeader(At(disk, cfg.logStart))
      requires list == [] && logUsed == 0 && outstanding == 0 && ops == map[] && !committing
      requires QuietGood(good, cfg, origin, es)
      modifies this`disk, this`list, this`header, this`acts, this`es, this`st
      ensures st.held == map[] && header.n == 0 && logUsed == 0
      ensures Valid() && ops == map[] && Now() == old(Now()) && forall b: nat ::
                  Home(cfg, b) ==> At(disk, b) == At(Now().view, b)
    {
      hide Inv, DecodeHeader, Followed, Promise, QuietGood, Recent, Ages;
      Step(BootRead);
      FollowedInv(cfg, origin, acts, es, st);
      CountFacts(cfg, st, Now());
      EmptyShows();
      NoneRecent(Ages(acts));
      LogWb();
      FollowedInv(cfg, origin, acts, es, st);
      Settled(cfg, st, Now());
    }

    /** The machine takes a step. */
    ghost method Step(act: Action)
      requires ValidConfig(cfg) && Followed(cfg, origin, acts, es, st) && |st.header.nos| == LOG_MAX_SIZE
               && Enabled(cfg, st, act)
      requires QuietGood(good, cfg, origin, es) && !act.Crash?
      requires act.EndOp? && Now().ops == {act.op} ==> good(Now().view)
      modifies this`acts, this`es, this`st
      ensures Followed(cfg, origin, acts, es, st) && st == Apply(cfg, old(st), act)
      ensures Now() == After(old(Now()), Label(old(st), act)) && QuietGood(good, cfg, origin, es)
      ensures Ages(acts) == if IsAcquire(act) then old(Ages(acts))[act.b := |old(acts)|] else old(Ages(acts))
    {
      hide Followed, Apply, Label, Promise, Enabled, Ages, QuietGood;
      AgesMore(acts, act);
      FollowedMore(cfg, origin, acts, es, st, act);
      StepGood(good, cfg, origin, acts, es, st, act);
      acts, es, st := acts + [act], es + [Label(st, act)], Apply(cfg, st, act);
    }

    /** The buffer of block `b`, or the length of the list. */
    method Find(b: nat) returns (i: nat)
      ensures i <= |list| && (i < |list| ==> list[i].no == b)
      ensures i == |list| ==> b !in Nos(list)
      ensures forall j :: 0 <= j < i ==> list[j].no != b
    {
      i := 0;
      while i < |list| && list[i].no != b
        invariant i <= |list| && forall j :: 0 <= j < i ==> list[j].no != b
      {
        i := i + 1;
      }
    }

    /** The eviction loop, from the tail. */
    method Evict()
      modifies this`list
      ensures list == Trimmed(old(list)) && EvictedTo(old(list), list)
    {
      TrimmedIsLeast(list);
      hide EvictedTo;
      var was := list;
      var p, cnum := |list|, |list|;
      assert Kept(was[p..]) == [];
      hide Kept, Evictable;
      while p > 0 && cnum >= EVICTION_THRESHOLD
        invariant p <= |was| && list == was[..p] + Kept(was[p..]) && cnum == |list|
        invariant Cut(was, |was|) == Cut(was, p)
      {
        KeptOne(was, p, list);
        p := p - 1;
        if Evictable(list[p]) {
          list := list[..p] + list[p + 1..];
          cnum := cnum - 1;
        }
      }
    }

    method Hit(ghost h: Holder, b: nat, i: nat) returns (buf: Buf)
      requires Mirrors() && MayAcquire(cfg, st, h, b) && b !in st.held && i < |list| && list[i].no == b
      modifies this`list, this`acts, this`es, this`st
      ensures Mirrors() && Now() == old(Now()) && list == [buf] + old(list[..i] + list[i + 1..])
              && buf == old(list)[i].(acquired := true)
      ensures st == old(st).(held := old(st).held[b := h])
    {
      hide Followed, Promise, QuietGood, Recent, Ages, Shows;
      buf := list[i].(acquired := true);
      HitShows(list, st.cache, st.held, i, h);
      AgesBelow(acts);
      RecentFront(list, Ages(acts), i, buf, |acts|);
      list := [buf] + (list[..i] + list[i + 1..]);
      Step(AcquireHit(h, b));
    }

    method Miss(ghost h: Holder, b: nat) returns (buf: Buf)
      requires Mirrors() && MayAcquire(cfg, st, h, b) && b !in st.cache
      modifies this`list, this`acts, this`es, this`st
      ensures Mirrors() && Now() == old(Now()) && list == [buf] + Trimmed(old(list))
              && EvictedTo(old(list), Trimmed(old(list)))
              && buf == Buf(b, true, false, At(disk, b))
      ensures st == old(st).(cache := st.cache, held := old(st).held[b := h])
      ensures forall c <- old(st.cache) :: c in old(st.held) ==> c in st.cache && st.cache[c] == old(st).cache[c]
    {
      hide Followed, Promise, QuietGood, Recent, Ages, Shows, Trimmed, EvictedTo;
      Evict();
      buf := Buf(b, true, false, At(disk, b));
      MissShows(old(list), st, h, b);
      AgesBelow(acts);
      RecentTrimmed(old(list), Ages(acts));
      NotTrimmed(old(list), st.cache, st.held.Keys, b);
      RecentMiss(list, Ages(acts), buf, |acts|);
      list := [buf] + list;
      ghost var evicted := st.cache.Keys - Nos(Trimmed(old(list)));
      Step(AcquireMiss(h, b, evicted));
      Step(Load(b));
    }

    /** A hit or a miss. */
    method Fetch(ghost h: Holder, b: nat) returns (buf: Buf)
      requires Mirrors() && MayAcquire(cfg, st, h, b) && b !in st.held
      modifies this`list, this`acts, this`es, this`st
      ensures Mirrors() && Now() == old(Now()) && list != [] && list[0] == buf && buf.no == b && buf.acquired
      ensures b in old(st.cache) ==>
                exists i :: 0 <= i < |old(list)| && old(list)[i].no == b && list[1..] == old(list[..i] + list[i + 1..])
                            && buf == old(list)[i].(acquired := true)
      ensures b !in old(st.cache) ==> buf == Buf(b, true, false, At(disk, b))
      ensures b !in old(st.cache) ==> list[1..] == Trimmed(old(list)) && EvictedTo(old(list), list[1..])
      ensures st == old(st).(cache := st.cache, held := old(st).held[b := h])
      ensures forall c <- old(st.cache) :: c in old(st.held) ==> c in st.cache && st.cache[c] == old(st).cache[c]
    {
      hide Followed, Promise, QuietGood, Recent, Ages, Inv, Shows, Trimmed, EvictedTo;
      var i := Find(b);
      ShownBy(list, st.cache, st.held.Keys, b, i);
      if i < |list| {
        buf := Hit(h, b, i);
      } else {
        buf := Miss(h, b);
      }
    }

    /** `cache_acquire`; false where the block is held and the caller has to wait. */
    method Acquire(ghost h: Holder, b: nat) returns (ok: bool, buf: Buf)
      requires Mirrors() && !st.phase.Boot? && MayAcquire(cfg, st, h, b)
      modifies this`list, this`acts, this`es, this`st
      ensures Mirrors() && Now() == old(Now()) && buf.no == b && buf.acquired && (ok <==> b !in old(st.held))
      ensures !ok ==> st == old(st) && list == old(list)
      ensures ok ==> list != [] && list[0] == buf && st.held == old(st).held[b := h]
      ensures ok && b in old(st.cache) ==>
                exists i :: 0 <= i < |old(list)| && old(list)[i].no == b && list[1..] == old(list[..i] + list[i + 1..])
                            && buf == old(list)[i].(acquired := true)
      ensures ok && b !in old(st.cache) ==> buf == Buf(b, true, false, At(disk, b))
      ensures ok && b !in old(st.cache) ==>
                EvictedTo(old(list), list[1..]) && DropsOldest(old(list), list[1..], Ages(old(acts)))
      ensures ok && h.Client? ==> buf.data == At(Now().view, b)
    {
      hide Followed, Promise, QuietGood, Recent, Ages, Inv, Shows, Trimmed, DropsOldest, EvictedTo;
      FollowedInv(cfg, origin, acts, es, st);
      CountFacts(cfg, st, Now());
      ok := Free(b);
      if ok {
        buf := Take(h, b);
      } else {
        var i := Find(b);
        ShownBy(list, st.cache, st.held.Keys, b, i);
        buf := list[i];
      }
    }

    /** A block that nobody holds is acquired. */
    method Take(ghost h: Holder, b: nat) returns (buf: Buf)
      requires Mirrors() && !st.phase.Boot? && MayAcquire(cfg, st, h, b) && b !in st.held
      modifies this`list, this`acts, this`es, this`st
      ensures Mirrors() && Now() == old(Now()) && list != [] && list[0] == buf && buf.no == b && buf.acquired
      ensures b in old(st.cache) ==>
                exists i :: 0 <= i < |old(list)| && old(list)[i].no == b && list[1..] == old(list[..i] + list[i + 1..])
                            && buf == old(list)[i].(acquired := true)
      ensures b !in old(st.cache) ==> buf == Buf(b, true, false, At(disk, b))
      ensures b !in old(st.cache) ==>
                EvictedTo(old(list), list[1..]) && DropsOldest(old(list), list[1..], Ages(old(acts)))
      ensures st == old(st).(cache := st.cache, held := old(st).held[b := h]) && b in st.cache
      ensures st.cache[b] == Cached(buf.data, buf.pinned)
      ensures forall c <- old(st.cache) :: c in old(st.held) ==> c in st.cache && st.cache[c] == old(st).cache[c]
      ensures h.Client? ==> buf.data == At(Now().view, b)
    {
      hide Followed, Promise, QuietGood, Recent, Ages, Inv, Shows, Trimmed, DropsOldest, EvictedTo;
      FollowedInv(cfg, origin, acts, es, st);
      DirtyHeld(cfg, st, Now());
      OldestDropped(list, st.cache, st.held.Keys, Ages(acts));
      buf := Fetch(h, b);
      ShownBy(list, st.cache, st.held.Keys, b, 0);
      if h.Client? {
        FollowedInv(cfg, origin, acts, es, st);
        CleanShows(cfg, st, Now(), b);
      }
    }

    method Release(b: nat)
      requires Mirrors() && b in st.held && b in st.cache && b !in st.dirty
      modifies this`list, this`acts, this`es, this`st
      ensures Mirrors() && Now() == old(Now()) && st == old(st).(held := old(st).held - {b})
      ensures exists i :: 0 <= i < |old(list)| && old(list)[i].no == b
                          && list == old(list)[i := old(list)[i].(acquired := false)]
    {
      hide Followed, Promise, QuietGood, Recent, Ages, Shows;
      var i := Find(b);
      ShownBy(list, st.cache, st.held.Keys, b, i);
      assert (st.held - {b}).Keys == st.held.Keys - {b};
      assert st.cache[b := Cached(list[i].data, list[i].pinned)] == st.cache;
      ShowsPut(list, st.cache, st.held.Keys, i, list[i].(acquired := false), st.held.Keys - {b});
      RecentPut(list, Ages(acts), i, list[i].(acquired := false));
      list := list[i := list[i].(acquired := false)];
      Step(Wal.Action.Release(b));
    }

    /** A client changes a block it holds. */
    method Write(op: nat, b: nat, data: Block)
      requires Valid() && b in st.held && b in st.cache && Wide(b) && op in ops && (b in st.dirty ==> st.dirty[b] == op)
      modifies this`list, this`acts, this`es, this`st
      ensures Valid() && Now() == old(Now()) && st == AfterModify(old(st), op, b, data)
    {
      hide Followed, Promise, QuietGood, Recent, Ages, Shows, Inv;
      FollowedInv(cfg, origin, acts, es, st);
      HeldHome(cfg, st, Now(), b);
      var i := Find(b);
      ShownBy(list, st.cache, st.held.Keys, b, i);
      ShowsPut(list, st.cache, st.held.Keys, i, list[i].(data := data), st.held.Keys);
      RecentPut(list, Ages(acts), i, list[i].(data := data));
      list := list[i := list[i].(data := data)];
      Step(Modify(op, b, data));
    }

    /** `cache_begin_op`; false where the caller has to wait. */
    method BeginOp(op: nat) returns (ok: bool)
      requires Valid() && op !in ops
      modifies this`logUsed, this`outstanding, this`ops, this`acts, this`es, this`st
      ensures Valid() && (ok <==> old(logUsed) + OP_MAX_NUM_BLOCKS <= LogSize(cfg))
      ensures !ok ==> st == old(st) && Now() == old(Now())
      ensures ok ==> st == AfterBegin(old(st), op) && Now() == After(old(Now()), Began(op))
    {
      hide Followed, Promise, QuietGood, Recent, Ages, Shows;
      ok := logUsed + OP_MAX_NUM_BLOCKS <= LogSize(cfg) && !committing;
      if ok {
        Step(Wal.Action.BeginOp(op));
        ops, logUsed, outstanding := ops[op := OP_MAX_NUM_BLOCKS], logUsed + OP_MAX_NUM_BLOCKS, outstanding + 1;
      }
    }

    /** The header search of `cache_sync`. */
    method Entry(b: nat) returns (k: nat)
      requires header.n <= |header.nos|
      ensures k <= header.n && k == IndexOf(header, b, 0)
      ensures k < header.n <==> HasEntry(header, 0, b)
    {
      k := 0;
      while k < header.n && header.nos[k] != b
        invariant k <= header.n && IndexOf(header, b, 0) == IndexOf(header, b, k)
      {
        k := k + 1;
      }
    }

    /** A new header entry: one block of the reservation is spent and the buffer is pinned. */
    method Record(op: nat, b: nat)
      requires Valid() && b in st.held && b in st.cache && Wide(b) && Home(cfg, b) && op in ops
               && (b in st.dirty ==> st.dirty[b] == op)
      requires IndexOf(header, b, 0) == header.n < LOG_MAX_SIZE && ops[op] > 0
      modifies this`list, this`header, this`ops, this`acts, this`es, this`st
      ensures Valid() && st == AfterSync(old(st), op, b)
              && Now() == After(old(Now()), Synced(op, b, old(st).cache[b].data))
    {
      hide Followed, Promise, QuietGood, Recent, Ages, Shows, IndexOf;
      var i := Find(b);
      ShownBy(list, st.cache, st.held.Keys, b, i);
      ShowsPut(list, st.cache, st.held.Keys, i, list[i].(pinned := true), st.held.Keys);
      RecentPut(list, Ages(acts), i, list[i].(pinned := true));
      Step(Wal.Action.Sync(op, b));
      header := Header(header.n + 1, header.nos[header.n := b]);
      ops := ops[op := ops[op] - 1];
      list := list[i := list[i].(pinned := true)];
    }

    /** `cache_sync` with a context; false where it panics. */
    method Sync(op: nat, b: nat) returns (ok: bool)
      requires Valid() && b in st.held && b in st.cache && Wide(b) && op in ops && (b in st.dirty ==> st.dirty[b] == op)
      modifies this`list, this`header, this`ops, this`acts, this`es, this`st
      ensures ok <==> HasEntry(old(header), 0, b) || old(ops)[op] > 0
      ensures Valid() && (!ok ==> st == old(st) && Now() == old(Now()))
      ensures ok ==> Now() == After(old(Now()), Synced(op, b, old(st).cache[b].data)) && b !in st.dirty
      ensures ok ==> ops == if HasEntry(old(header), 0, b) then old(ops) else old(ops)[op := old(ops)[op] - 1]
      ensures ok ==> st.held == old(st).held && st.cache.Keys == old(st).cache.Keys
      ensures ok ==> forall c: nat :: HasEntry(header, 0, c) <==> HasEntry(old(header), 0, c) || c == b
    {
      hide Followed, Promise, QuietGood, Recent, Ages, Shows, Inv;
      FollowedInv(cfg, origin, acts, es, st);
      CountFacts(cfg, st, Now());
      HeldHome(cfg, st, Now(), b);
      var k := Entry(b);
      ok := k < header.n || ops[op] > 0;
      if ok {
        if k == header.n {
          Record(op, b);
        } else {
          header := Header(header.n, header.nos[k := b]);
          Step(Wal.Action.Sync(op, b));
        }
        SyncEntries(old(header), header, b);
      }
    }

    /** Acquire a block, change it, sync it and release it. */
    method Put(op: nat, b: nat, data: Block) returns (r: Reply)
      requires Valid() && op in ops && Wide(b) && Home(cfg, b)
      modifies this`list, this`header, this`ops, this`acts, this`es, this`st
      ensures r.Held? <==> b in old(st.held)
      ensures r.Refused? <==> b !in old(st.held) && !HasEntry(old(header), 0, b) && old(ops)[op] == 0
      ensures r.Held? ==> Valid() && st == old(st)
      ensures r.Written? ==>
                && Valid() && Now() == old(Now()).(view := old(Now()).view[b := data]) && st.held == old(st.held)
                && (forall c: nat :: HasEntry(header, 0, c) <==> HasEntry(old(header), 0, c) || c == b)
                && ops == if HasEntry(old(header), 0, b) then old(ops) else old(ops)[op := old(ops)[op] - 1]
      ensures Mirrors() && (!r.Written? ==> Now() == old(Now()))
    {
      hide Followed, Promise, QuietGood, Recent, Ages, Shows, Inv, HasEntry;
      var free := Free(b);
      if !free {
        return Held;
      }
      Change(op, b, data);
      var ok := Sync(op, b);
      if !ok {
        return Refused;
      }
      Release(b);
      assert st.held == old(st.held);
      r := Written;
    }

    /** Whether nobody holds the block. */
    method Free(b: nat) returns (free: bool)
      requires Mirrors() && !st.phase.Boot?
      ensures free <==> b !in st.held
    {
      hide Followed, Promise, QuietGood, Recent, Ages, Inv, Shows;
      FollowedInv(cfg, origin, acts, es, st);
      CountFacts(cfg, st, Now());
      var i := Find(b);
      ShownBy(list, st.cache, st.held.Keys, b, i);
      free := i == |list| || !list[i].acquired;
    }

    /** Acquire a block and change it. */
    method Change(op: nat, b: nat, data: Block)
      requires Valid() && op in ops && Wide(b) && Home(cfg, b) && b !in st.held
      modifies this`list, this`acts, this`es, this`st
      ensures Valid() && Now() == old(Now()) && st.held == old(st.held)[b := Client(op)]
      ensures b in st.cache && st.cache[b].data == data && b in st.dirty && st.dirty[b] == op
    {
      hide Followed, Promise, QuietGood, Recent, Ages, Shows, Inv, DropsOldest, Trimmed, EvictedTo;
      FollowedInv(cfg, origin, acts, es, st);
      DirtyHeld(cfg, st, Now());
      var buf := Take(Client(op), b);
      Write(op, b, data);
    }

    // Commit.

    method CopyAll()
      requires Mirrors() && st.phase == Copy(0) && OnlyClients(st.held) && EntriesFree(header, st.held.Keys)
               && !st.booting
      modifies this`disk, this`list, this`acts, this`es, this`st
      ensures Mirrors() && st.phase == Copy(header.n) && Now() == old(Now()) && st.held == old(st.held) && !st.booting
      ensures st == old(st).(cache := st.cache, phase := st.phase, disk := st.disk)
    {
      hide Followed, Promise, QuietGood, Recent, Ages, Shows, Inv, Trimmed, EvictedTo;
      var i := 0;
      while i < header.n
        invariant i <= header.n && Mirrors() && st.phase == Copy(i) && Now() == old(Now())
        invariant st == old(st).(cache := st.cache, phase := st.phase, disk := st.disk)
      {
        CopyNext(i);
        i := i + 1;
      }
    }

    /** The committer takes a log slot and the home block of its entry. */
    method AcquirePair(i: nat) returns (logb: Buf, sdb: Buf)
      requires Mirrors() && i < header.n && (st.phase.Copy? || st.phase.Install?) && OnlyClients(st.held)
               && header.nos[i] !in st.held
      modifies this`list, this`acts, this`es, this`st
      ensures Mirrors() && Now() == old(Now())
      ensures st == old(st).(cache := st.cache,
              held := old(st).held[Slot(cfg, i) := Committer][header.nos[i] := Committer])
      ensures HeldByCommitter(st, Slot(cfg, i)) && st.cache[Slot(cfg, i)].data == logb.data
      ensures HeldByCommitter(st, header.nos[i]) && st.cache[header.nos[i]].data == sdb.data
      ensures Slot(cfg, i) !in st.dirty && header.nos[i] !in st.dirty && Slot(cfg, i) !in old(st.held)
              && Slot(cfg, i) != header.nos[i]
    {
      hide Followed, Promise, QuietGood, Recent, Ages, Shows, Inv, Trimmed, EvictedTo;
      FollowedInv(cfg, origin, acts, es, st);
      EntryFacts(cfg, st, Now(), i);
      DirtyHeld(cfg, st, Now());
      logb := Take(Committer, cfg.logStart + i + 1);
      sdb := Take(Committer, header.nos[i]);
    }

    method ReleasePair(i: nat)
      requires Mirrors() && i < header.n && HeldByCommitter(st, Slot(cfg, i)) && HeldByCommitter(st, header.nos[i])
      requires Slot(cfg, i) !in st.dirty && header.nos[i] !in st.dirty && Slot(cfg, i) != header.nos[i]
      modifies this`list, this`acts, this`es, this`st
      ensures Mirrors() && Now() == old(Now())
              && st == old(st).(held := old(st).held - {Slot(cfg, i)} - {header.nos[i]})
    {
      hide Followed, Promise, QuietGood, Recent, Ages, Shows;
      Release(cfg.logStart + i + 1);
      Release(header.nos[i]);
    }

    method CopyNext(i: nat)
      requires Mirrors() && st.phase == Copy(i) && i < header.n && OnlyClients(st.held) && header.nos[i] !in st.held
      modifies this`disk, this`list, this`acts, this`es, this`st
      ensures Mirrors() && st == old(st).(cache := st.cache, phase := Copy(i + 1), disk := st.disk)
              && Now() == old(Now())
    {
      hide Followed, Promise, QuietGood, Recent, Ages, Shows;
      var logb, sdb := AcquirePair(i);
      CopyData(i, sdb.data);
      ReleasePair(i);
      assert st.held == old(st).held;
    }

    /** Copy the content of an entry to its slot, in memory and on disk. */
    method CopyData(i: nat, data: Block)
      requires Mirrors() && st.phase == Copy(i) && i < header.n
      requires HeldByCommitter(st, Slot(cfg, i)) && HeldByCommitter(st, header.nos[i])
               && st.cache[header.nos[i]].data == data
      modifies this`disk, this`list, this`acts, this`es, this`st
      ensures Mirrors() && st == AfterCopy(cfg, old(st), i) && Now() == old(Now())
    {
      hide Followed, Promise, QuietGood, Recent, Ages, Shows;
      var x := cfg.logStart + i + 1;
      var k := Find(x);
      ShownBy(list, st.cache, st.held.Keys, x, k);
      ShowsPut(list, st.cache, st.held.Keys, k, list[k].(data := data), st.held.Keys);
      RecentPut(list, Ages(acts), k, list[k].(data := data));
      list := list[k := list[k].(data := data)];
      disk := disk[x := data];
      Step(CopyOne);
    }

    /** Writing the header makes the whole group durable. */
    method CommitPoint()
      requires Mirrors() && st.phase == Copy(header.n)
      modifies this`disk, this`logUsed, this`acts, this`es, this`st
      ensures Mirrors() && st == old(st).(disk := disk, logUsed := logUsed, phase := Install(0))
              && Now() == After(old(Now()), Committed)
    {
      hide Followed, Promise, QuietGood, Recent, Ages, Shows, Inv, EncodeHeader;
      FollowedInv(cfg, origin, acts, es, st);
      CountFacts(cfg, st, Now());
      Step(WriteHeader);
      disk := disk[cfg.logStart := EncodeHeader(header)];
      logUsed := logUsed - header.n;
    }

    /** `log_wb`. */
    method LogWb()
      requires Mirrors() && st.phase == Install(0) && OnlyClients(st.held) && EntriesFree(header, st.held.Keys)
      modifies this`disk, this`list, this`header, this`acts, this`es, this`st
      ensures Mirrors() && st.phase.Idle? && !st.booting && Now() == old(Now()) && header.n == 0
      ensures st == old(st).(cache := st.cache, phase := Idle, disk := st.disk, booting := false, header := header)
    {
      hide Followed, Promise, QuietGood, Recent, Ages, Shows, EncodeHeader;
      InstallAll();
      Step(ClearHeader);
      header := header.(n := 0);
      disk := disk[cfg.logStart := EncodeHeader(header)];
    }

    method InstallAll()
      requires Mirrors() && st.phase == Install(0) && OnlyClients(st.held) && EntriesFree(header, st.held.Keys)
      modifies this`disk, this`list, this`acts, this`es, this`st
      ensures Mirrors() && st.phase == Install(header.n) && Now() == old(Now())
      ensures st == old(st).(cache := st.cache, phase := st.phase, disk := st.disk)
    {
      hide Followed, Promise, QuietGood, Recent, Ages, Shows;
      var i := 0;
      while i < header.n
        invariant i <= header.n && Mirrors() && st.phase == Install(i) && Now() == old(Now())
        invariant st == old(st).(cache := st.cache, phase := st.phase, disk := st.disk)
      {
        InstallNext(i);
        i := i + 1;
      }
    }

    method InstallNext(i: nat)
      requires Mirrors() && st.phase == Install(i) && i < header.n && OnlyClients(st.held) && header.nos[i] !in st.held
      modifies this`disk, this`list, this`acts, this`es, this`st
      ensures Mirrors() && st == old(st).(cache := st.cache, phase := Install(i + 1), disk := st.disk)
              && Now() == old(Now())
    {
      hide Followed, Promise, QuietGood, Recent, Ages, Shows;
      var logb, sdb := AcquirePair(i);
      InstallData(i, logb.data);
      ReleasePair(i);
      assert st.held == old(st).held;
    }

    /** Copy the content of a slot to the home block of its entry, in memory and on disk. */
    method InstallData(i: nat, data: Block)
      requires Mirrors() && st.phase == Install(i) && i < header.n
      requires HeldByCommitter(st, Slot(cfg, i)) && HeldByCommitter(st, header.nos[i])
               && st.cache[Slot(cfg, i)].data == data
      modifies this`disk, this`list, this`acts, this`es, this`st
      ensures Mirrors() && st == AfterInstall(cfg, old(st), i) && Now() == old(Now())
    {
      hide Followed, Promise, QuietGood, Recent, Ages, Shows;
      var y := header.nos[i];
      var k := Find(y);
      ShownBy(list, st.cache, st.held.Keys, y, k);
      ShowsPut(list, st.cache, st.held.Keys, k, list[k].(data := data, pinned := false), st.held.Keys);
      RecentPut(list, Ages(acts), k, list[k].(data := data, pinned := false));
      list := list[k := list[k].(data := data, pinned := false)];
      disk := disk[y := data];
      Step(InstallOne);
    }

    /** The caller is the last operation of its group: write the log, commit, install. */
    method Commit()
      requires Mirrors() && st.phase == Copy(0) && OnlyClients(st.held) && EntriesFree(header, st.held.Keys)
               && !st.booting
      modifies this
      ensures Valid() && Now() == After(old(Now()), Committed) && header.n == 0 && origin == old(origin)
      ensures st.held == old(st.held) && st.dirty == old(st.dirty) && st.ops == old(st.ops)
    {
      hide Followed, Promise, QuietGood, Recent, Ages, Shows, Inv;
      committing := true;
      CopyAll();
      CommitPoint();
      LogWb();
      committing := false;
    }

    /** The accounting of `cache_end_op`. The last operation starts the commit. */
    method Close(op: nat)
      requires Valid() && op in ops && op !in st.dirty.Values && (ops.Keys == {op} ==> good(Now().view))
      modifies this`logUsed, this`outstanding, this`ops, this`acts, this`es, this`st
      ensures Mirrors() && Now() == After(old(Now()), Ended(op)) && ops == old(ops) - {op}
      ensures st == old(st).(logUsed := logUsed, ops := ops, outstanding := outstanding,
                             phase := if outstanding == 0 then Copy(0) else Idle)
      ensures outstanding == old(outstanding) - 1 && (outstanding == 0 <==> old(ops).Keys == {op})
    {
      hide Followed, Promise, QuietGood, Recent, Ages, Shows, Inv;
      FollowedInv(cfg, origin, acts, es, st);
      CountFacts(cfg, st, Now());
      Step(Wal.Action.EndOp(op));
      logUsed, outstanding, ops := logUsed - ops[op], outstanding - 1, ops - {op};
    }

    /** `cache_end_op`, up to the wait of an operation that does not commit. */
    method EndOp(op: nat)
      requires Valid() && op in ops && op !in st.dirty.Values
      requires outstanding == 1 ==> EntriesFree(header, st.held.Keys)
      requires ops.Keys == {op} ==> good(Now().view)
      modifies this
      ensures Valid() && ops == old(ops) - {op} && origin == old(origin) && st.held == old(st.held)
      ensures var ended := After(old(Now()), Ended(op));
              Now() == if old(ops).Keys == {op} then After(ended, Committed) else ended
      ensures old(ops).Keys == {op} ==>
                header.n == 0 && logUsed == 0 && forall b: nat :: Home(cfg, b) ==> At(disk, b) == At(Now().view, b)
    {
      hide Followed, Promise, QuietGood, Recent, Ages, Shows, Inv;
      Close(op);
      if outstanding == 0 {
        Commit();
        FollowedInv(cfg, origin, acts, es, st);
        Settled(cfg, st, Now());
      }
    }
  }

  lemma {:induction false} ShownBy(list: seq<Buf>, cache: map<nat, Cached>, held: set<nat>, b: nat, i: nat)
    requires Shows(list, cache, held) && i <= |list| && (i < |list| ==> list[i].no == b)
             && (i == |list| ==> b !in Nos(list))
    ensures b in cache <==> i < |list|
    ensures b in cache ==> cache[b] == Cached(list[i].data, list[i].pinned) && (list[i].acquired <==> b in held)
  {
  }

  lemma {:induction false} OldestDropped(list: seq<Buf>, cache: map<nat, Cached>, held: set<nat>, ages: map<nat, nat>)
    requires Shows(list, cache, held) && Recent(list, ages)
    ensures DropsOldest(list, Trimmed(list), ages)
  {
    EvictsOldest(list, ages);
  }

  lemma {:induction false} NotTrimmed(list: seq<Buf>, cache: map<nat, Cached>, held: set<nat>, b: nat)
    requires Shows(list, cache, held) && b !in cache
    ensures forall i | 0 <= i < |Trimmed(list)| :: Trimmed(list)[i].no != b
  {
    TrimmedKeeps(list);
    hide Trimmed;
    forall i | 0 <= i < |Trimmed(list)| ensures Trimmed(list)[i].no != b {
      assert Trimmed(list)[i] in list;
    }
  }

  lemma {:induction false} SyncEntries(h: Header, h': Header, b: nat)
    requires h.n <= |h.nos| && (IndexOf(h, b, 0) == h.n ==> h.n < |h.nos|)
    requires h' == if IndexOf(h, b, 0) < h.n then h else Header(h.n + 1, h.nos[h.n := b])
    ensures HasEntry(h, 0, b) <==> IndexOf(h, b, 0) < h.n
    ensures forall c: nat :: HasEntry(h', 0, c) <==> HasEntry(h, 0, c) || c == b
  {
    forall c: nat ensures HasEntry(h', 0, c) <==> HasEntry(h, 0, c) || c == b {
      if HasEntry(h, 0, c) {
        var i :| 0 <= i < h.n && h.nos[i] == c;
        assert h'.nos[i] == c;
      }
      if c == b {
        assert h'.nos[IndexOf(h, b, 0)] == c;
      }
    }
  }

  /** One turn of the eviction loop. */
  lemma {:induction false} KeptOne(was: seq<Buf>, p: nat, list: seq<Buf>)
    requires 0 < p <= |was| && list == was[..p] + Kept(was[p..])
    ensures list[p - 1] == was[p - 1]
    ensures was[..p - 1] + Kept(was[p - 1..]) == if Evictable(was[p - 1]) then list[..p - 1] + list[p..] else list
  {
    assert was[p - 1..][0] == was[p - 1] && was[p - 1..][1..] == was[p..];
    assert was[..p] == was[..p - 1] + [was[p - 1]];
  }
}
