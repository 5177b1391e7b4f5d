/** How the buffers of the block cache show a state of the step machine, and the history that led there. */
module CacheHistory {
  import opened Blocks
  import opened Lru
  import opened Wal
  import opened Sums
  import opened WalSafety
  import opened WalSteps
  import opened WalTheorem

  ghost function Nos(list: seq<Buf>): set<nat>
  {
    set i | 0 <= i < |list| :: list[i].no
  }

  /** The list holds one buffer per cached block, with the machine's content and flags. */
  ghost predicate Shows(list: seq<Buf>, cache: map<nat, Cached>, held: set<nat>)
  {
    && Distinct(list) && Nos(list) == cache.Keys
    && forall i :: 0 <= i < |list| ==>
         && list[i].no in cache && cache[list[i].no] == Cached(list[i].data, list[i].pinned)
         && (list[i].acquired <==> list[i].no in held)
  }

  /** Writing through a `Block*`. */
  lemma {:induction false} ShowsPut(list: seq<Buf>, cache: map<nat, Cached>, held: set<nat>, i: nat, buf: Buf,
                                    held': set<nat>)
    requires Shows(list, cache, held) && i < |list| && buf.no == list[i].no
    requires held' - {buf.no} == held - {buf.no} && (buf.acquired <==> buf.no in held')
    ensures Shows(list[i := buf], cache[buf.no := Cached(buf.data, buf.pinned)], held')
  {
    var list' := list[i := buf];
    assert forall j :: 0 <= j < |list| ==> list'[j].no == list[j].no;
    forall b ensures b in Nos(list') <==> b in Nos(list) {
      if b in Nos(list) {
        var j :| 0 <= j < |list| && list[j].no == b;
        assert list'[j].no == b;
      }
    }
    assert buf.no in Nos(list);
    forall j | 0 <= j < |list| && j != i ensures list[j].no != buf.no && (list'[j].acquired <==> list'[j].no in held') {
      assert list[if i < j then i else j].no != list[if i < j then j else i].no;
      assert list[j].no in held' <==> list[j].no in held' - {buf.no};
      assert list[j].no in held <==> list[j].no in held - {buf.no};
    }
  }

  /** The list with buffer `i` moved to the front. */
  function Front(list: seq<Buf>, i: nat): (r: seq<Buf>)
    requires i < |list|
    ensures |r| == |list| && forall j | 0 <= j < |list| :: r[j] == list[Source(i, j)]
  {
    [list[i]] + list[..i] + list[i + 1..]
  }

  function Source(i: nat, j: nat): nat
  {
    if j == 0 then i else if j <= i then j - 1 else j
  }

  lemma {:induction false} FrontNos(list: seq<Buf>, i: nat)
    requires i < |list|
    ensures Nos(Front(list, i)) == Nos(list)
  {
    hide Front;
    forall b ensures b in Nos(Front(list, i)) <==> b in Nos(list) {
      if b in Nos(list) {
        var j :| 0 <= j < |list| && list[j].no == b;
        assert Front(list, i)[if j == i then 0 else if j < i then j + 1 else j].no == b;
      }
    }
  }

  /** A hit moves the buffer to the front. */
  lemma {:induction false} ShowsFront(list: seq<Buf>, cache: map<nat, Cached>, held: set<nat>, i: nat)
    requires Shows(list, cache, held) && i < |list|
    ensures Shows(Front(list, i), cache, held)
  {
    hide Front, Nos;
    FrontNos(list, i);
  }

  /** A miss drops evictable buffers and puts a new one at the front. */
  lemma {:induction false} ShowsMiss(list: seq<Buf>, cache: map<nat, Cached>, held: set<nat>, kept: seq<Buf>, buf: Buf)
    requires Shows(list, cache, held) && Distinct(kept) && (forall b <- kept :: b in list)
             && (forall b <- list :: !Evictable(b) ==> b in kept)
    requires buf.no !in cache && buf.acquired
    ensures var evicted := cache.Keys - Nos(kept);
            && (forall e <- evicted :: e !in held && !cache[e].pinned)
            && Shows([buf] + kept, (cache - evicted)[buf.no := Cached(buf.data, buf.pinned)], held + {buf.no})
  {
    var evicted := cache.Keys - Nos(kept);
    assert forall k :: 0 <= k < |kept| ==> kept[k].no in Nos(kept);
    forall e <- evicted ensures e !in held && !cache[e].pinned {
      assert e in Nos(list);
      var j :| 0 <= j < |list| && list[j].no == e;
      assert list[j] !in kept;
    }
    forall k | 0 <= k < |kept|
      ensures kept[k].no in cache && kept[k].no !in evicted && cache[kept[k].no] == Cached(kept[k].data, kept[k].pinned)
      ensures kept[k].acquired <==> kept[k].no in held
    {
      assert kept[k] in list;
      var j :| 0 <= j < |list| && list[j] == kept[k];
      assert kept[k].no in Nos(kept);
    }
    var list', cache' := [buf] + kept, (cache - evicted)[buf.no := Cached(buf.data, buf.pinned)];
    assert forall k :: 0 <= k < |list'| ==> list'[k] == if k == 0 then buf else kept[k - 1];
    forall b ensures b in Nos(list') <==> b in cache'.Keys {
      if b in Nos(kept) {
        var k :| 0 <= k < |kept| && kept[k].no == b;
        assert list'[k + 1].no == b;
      }
      if b == buf.no {
        assert list'[0].no == b;
      }
    }
  }

  lemma {:induction false} FrontPut(list: seq<Buf>, i: nat, buf: Buf)
    requires i < |list|
    ensures Front(list[i := buf], i) == [buf] + (list[..i] + list[i + 1..])
  {
    var list' := list[i := buf];
    assert list'[..i] == list[..i] && list'[i + 1..] == list[i + 1..];
    assert [buf] + list[..i] + list[i + 1..] == [buf] + (list[..i] + list[i + 1..]);
  }

  lemma {:induction false} HitShows(list: seq<Buf>, cache: map<nat, Cached>, held: map<nat, Holder>, i: nat, h: Holder)
    requires Shows(list, cache, held.Keys) && i < |list|
    ensures var buf := list[i].(acquired := true); Shows([buf] + (list[..i] + list[i + 1..]), cache,
            held[buf.no := h].Keys)
    ensures list[i].no in cache
  {
    var buf := list[i].(acquired := true);
    var list' := list[i := buf];
    assert cache[buf.no := Cached(buf.data, buf.pinned)] == cache;
    assert held[buf.no := h].Keys == held.Keys + {buf.no};
    ShowsPut(list, cache, held.Keys, i, buf, held.Keys + {buf.no});
    hide Shows, Front;
    ShowsFront(list', cache, held.Keys + {buf.no}, i);
    FrontPut(list, i, buf);
  }

  lemma {:induction false} MissShows(list: seq<Buf>, st: State, h: Holder, b: nat)
    requires Shows(list, st.cache, st.held.Keys) && b !in st.cache && st.loading == {}
    ensures var evicted := st.cache.Keys - Nos(Trimmed(list));
            && (forall e <- evicted :: e !in st.held && !st.cache[e].pinned)
            && var s' := AfterLoad(AfterMiss(st, h, b, evicted), b);
            && s'.loading == {} && Shows([Buf(b, true, false, At(st.disk, b))] + Trimmed(list), s'.cache, s'.held.Keys)
  {
    TrimmedKeeps(list);
    hide Trimmed;
    var evicted := st.cache.Keys - Nos(Trimmed(list));
    var s' := AfterLoad(AfterMiss(st, h, b, evicted), b);
    var buf := Buf(b, true, false, At(st.disk, b));
    ShowsMiss(list, st.cache, st.held.Keys, Trimmed(list), buf);
    assert s'.cache == (st.cache - evicted)[b := Cached(buf.data, false)];
    assert s'.held.Keys == st.held.Keys + {b};
  }

  /** A block just acquired by a client shows its last synced content. */
  lemma {:induction false} CleanShows(cfg: Config, st: State, a: Abstract, b: nat)
    requires Inv(cfg, st, a) && !st.phase.Boot? && Ready(st, b) && st.held[b].Client? && b !in st.dirty
    ensures st.cache[b].data == At(a.view, b)
  {
    LookKeeps(cfg, st, a, b);
  }

  // The history.

  /** From a first boot on disk `origin`, the actions `acts` lead to `st` and show clients the events `es`. */
  ghost predicate Followed(cfg: Config, origin: Disk, acts: seq<Action>, es: seq<Event>, st: State)
  {
    ValidConfig(cfg) && ValidHeader(cfg, OnDisk(cfg, origin)) && Run(cfg, Rebooted(origin), acts, es, st)
  }

  ghost function Promise(cfg: Config, origin: Disk, es: seq<Event>): Abstract
  {
    if ValidConfig(cfg) && ValidHeader(cfg, OnDisk(cfg, origin)) then Promised(Initially(cfg, origin), es)
        else Abstract(origin, origin, {})
  }

  lemma {:induction false} RunMore(cfg: Config, s: State, acts: seq<Action>, es: seq<Event>, s': State, act: Action)
    requires ValidConfig(cfg) && Run(cfg, s, acts, es, s') && |s'.header.nos| == LOG_MAX_SIZE && Enabled(cfg, s', act)
    ensures Run(cfg, s, acts + [act], es + [Label(s', act)], Apply(cfg, s', act))
    decreases |acts|
  {
    hide Enabled, Apply, Label;
    if acts == [] {
      assert Run(cfg, Apply(cfg, s, act), [], [], Apply(cfg, s, act));
    } else {
      RunMore(cfg, Apply(cfg, s, acts[0]), acts[1..], es[1..], s', act);
      assert (acts + [act])[1..] == acts[1..] + [act] && (es + [Label(s', act)])[1..] == es[1..] + [Label(s', act)];
    }
  }

  lemma {:induction false} PromisedMore(a: Abstract, es: seq<Event>, e: Event)
    ensures Promised(a, es + [e]) == After(Promised(a, es), e)
    decreases |es|
  {
    hide After;
    if es == [] {
      assert Promised(After(a, e), []) == After(a, e);
    } else {
      PromisedMore(After(a, es[0]), es[1..], e);
      assert (es + [e])[1..] == es[1..] + [e];
    }
  }

  /** Whatever the code has done so far, the invariant of the log holds. */
  lemma {:induction false} FollowedInv(cfg: Config, origin: Disk, acts: seq<Action>, es: seq<Event>, st: State)
    requires Followed(cfg, origin, acts, es, st)
    ensures Inv(cfg, st, Promise(cfg, origin, es))
  {
    hide Inv, ValidHeader, Run, Promised, Initially;
    BootsSafe(cfg, origin);
    RunSafe(cfg, Rebooted(origin), Initially(cfg, origin), acts, es, st);
  }

  lemma {:induction false} FollowedMore(cfg: Config, origin: Disk, acts: seq<Action>, es: seq<Event>, st: State,
                                        act: Action)
    requires Followed(cfg, origin, acts, es, st) && |st.header.nos| == LOG_MAX_SIZE && Enabled(cfg, st, act)
    ensures Followed(cfg, origin, acts + [act], es + [Label(st, act)], Apply(cfg, st, act))
    ensures Promise(cfg, origin, es + [Label(st, act)]) == After(Promise(cfg, origin, es), Label(st, act))
  {
    hide ValidHeader, Run, Promised, Initially, Enabled, Apply, Label, After;
    RunMore(cfg, Rebooted(origin), acts, es, st, act);
    PromisedMore(Initially(cfg, origin), es, Label(st, act));
  }

  // Quiet moments.

  /** Whenever no operation was running, what clients saw was good. */
  ghost predicate QuietGood(good: Disk -> bool, cfg: Config, origin: Disk, es: seq<Event>)
  {
    forall n | 0 <= n <= |es| :: GoodAt(good, Promise(cfg, origin, es[..n]))
  }

  ghost predicate GoodAt(good: Disk -> bool, a: Abstract)
  {
    a.ops == {} ==> good(a.view)
  }

  lemma {:induction false} QuietMore(good: Disk -> bool, cfg: Config, origin: Disk, es: seq<Event>, e: Event)
    requires QuietGood(good, cfg, origin, es) && GoodAt(good, Promise(cfg, origin, es + [e]))
    ensures QuietGood(good, cfg, origin, es + [e])
  {
    hide GoodAt, Promise;
    forall n | 0 <= n <= |es| + 1 ensures GoodAt(good, Promise(cfg, origin, (es + [e])[..n])) {
      if n <= |es| {
        assert (es + [e])[..n] == es[..n];
      } else {
        assert (es + [e])[..n] == es + [e];
      }
    }
  }

  lemma {:induction false} QuietNow(good: Disk -> bool, cfg: Config, origin: Disk, es: seq<Event>)
    requires QuietGood(good, cfg, origin, es)
    ensures GoodAt(good, Promise(cfg, origin, es))
  {
    hide GoodAt, Promise;
    assert es[..|es|] == es;
  }

  /** Only the end of the last operation makes a moment quiet with another view than before. */
  lemma {:induction false} StaysGood(good: Disk -> bool, a: Abstract, e: Event)
    requires GoodAt(good, a) && Allowed(a, e) && !e.Crashed? && (e.Ended? && a.ops == {e.op} ==> good(a.view))
    ensures GoodAt(good, After(a, e))
  {
    if e.Ended? && After(a, e).ops == {} {
      assert forall op :: op in a.ops ==> op in After(a, e).ops || op == e.op;
      assert a.ops == {e.op};
    }
  }

  lemma {:induction false} StepGood(good: Disk -> bool, cfg: Config, origin: Disk, acts: seq<Action>, es: seq<Event>,
                                    st: State, act: Action)
    requires Followed(cfg, origin, acts, es, st) && |st.header.nos| == LOG_MAX_SIZE && Enabled(cfg, st, act)
    requires QuietGood(good, cfg, origin, es) && !act.Crash?
    requires act.EndOp? && Promise(cfg, origin, es).ops == {act.op} ==> good(Promise(cfg, origin, es).view)
    ensures QuietGood(good, cfg, origin, es + [Label(st, act)])
  {
    hide Followed, Promise, QuietGood, GoodAt, Inv, Enabled, Apply, After, Allowed;
    var a := Promise(cfg, origin, es);
    FollowedInv(cfg, origin, acts, es, st);
    StepSafe(cfg, st, a, act);
    FollowedMore(cfg, origin, acts, es, st, act);
    QuietNow(good, cfg, origin, es);
    StaysGood(good, a, Label(st, act));
    QuietMore(good, cfg, origin, es, Label(st, act));
  }

  // Recency.

  predicate IsAcquire(act: Action)
  {
    act.AcquireHit? || act.AcquireMiss?
  }

  /** When each block was last acquired, counted in actions. */
  ghost function Ages(acts: seq<Action>): map<nat, nat>
    decreases |acts|
  {
    if acts == [] then map[] else
      var n := |acts| - 1;
      if IsAcquire(acts[n]) then Ages(acts[..n])[acts[n].b := n] else Ages(acts[..n])
  }

  lemma {:induction false} AgesMore(acts: seq<Action>, act: Action)
    ensures Ages(acts + [act]) == if IsAcquire(act) then Ages(acts)[act.b := |acts|] else Ages(acts)
  {
    assert (acts + [act])[..|acts|] == acts;
  }

  lemma {:induction false} AgesBelow(acts: seq<Action>)
    ensures forall b <- Ages(acts) :: Ages(acts)[b] < |acts|
    decreases |acts|
  {
    if acts != [] {
      AgesBelow(acts[..|acts| - 1]);
    }
  }

  /** The age of a block is the last action that acquired it. */
  lemma {:induction false} AgesAre(acts: seq<Action>, b: nat)
    ensures b in Ages(acts) <==> exists i :: 0 <= i < |acts| && IsAcquire(acts[i]) && acts[i].b == b
    ensures b in Ages(acts) ==> var i := Ages(acts)[b]; i < |acts| && IsAcquire(acts[i]) && acts[i].b == b
    ensures b in Ages(acts) ==>
              forall j | Ages(acts)[b] < j < |acts| && IsAcquire(acts[j]) :: acts[j].b != b
    decreases |acts|
  {
    if acts != [] {
      var n := |acts| - 1;
      AgesAre(acts[..n], b);
      assert forall i | 0 <= i < n :: acts[..n][i] == acts[i];
    }
  }

  /** The list runs from the block acquired last to the one acquired longest ago. */
  ghost predicate Recent(list: seq<Buf>, ages: map<nat, nat>)
  {
    && (forall i | 0 <= i < |list| :: list[i].no in ages)
    && (forall i, j | 0 <= i < j < |list| :: ages[list[i].no] > ages[list[j].no])
  }

  lemma NoneRecent(ages: map<nat, nat>)
    ensures Recent([], ages)
  {
  }

  lemma {:induction false} RecentPut(list: seq<Buf>, ages: map<nat, nat>, i: nat, buf: Buf)
    requires Recent(list, ages) && i < |list| && buf.no == list[i].no
    ensures Recent(list[i := buf], ages)
  {
    assert forall j | 0 <= j < |list| :: list[i := buf][j].no == list[j].no;
  }

  lemma {:induction false} RecentFront(list: seq<Buf>, ages: map<nat, nat>, i: nat, buf: Buf, n: nat)
    requires Recent(list, ages) && i < |list| && buf.no == list[i].no && forall b <- ages :: ages[b] < n
    ensures Recent([buf] + (list[..i] + list[i + 1..]), ages[buf.no := n])
  {
    var rest := list[..i] + list[i + 1..];
    assert forall j | 0 <= j < |rest| :: rest[j] == list[if j < i then j else j + 1];
    assert forall j | 0 <= j < |rest| :: rest[j].no != buf.no;
  }

  lemma {:induction false} RecentKept(list: seq<Buf>, ages: map<nat, nat>)
    requires Recent(list, ages)
    ensures Recent(Kept(list), ages) && forall b <- Kept(list) :: b in list
  {
    if list != [] {
      RecentKept(list[1..], ages);
      assert forall b <- list[1..] :: b in list;
      forall j | 0 <= j < |Kept(list[1..])| ensures ages[list[0].no] > ages[Kept(list[1..])[j].no] {
        assert Kept(list[1..])[j] in list[1..];
        var k :| 0 <= k < |list[1..]| && list[1..][k] == Kept(list[1..])[j];
        assert list[k + 1] == Kept(list[1..])[j];
      }
    }
  }

  /** Eviction keeps the order. */
  lemma {:induction false} RecentTrimmed(list: seq<Buf>, ages: map<nat, nat>)
    requires Recent(list, ages)
    ensures Recent(Trimmed(list), ages)
  {
    var cut := Cut(list, |list|);
    hide Cut;
    assert Recent(list[cut..], ages);
    RecentKept(list[cut..], ages);
    var k := Kept(list[cut..]);
    hide Kept;
    forall i, j | 0 <= i < cut && 0 <= j < |k| ensures ages[list[i].no] > ages[k[j].no] {
      assert k[j] in list[cut..];
      var q :| 0 <= q < |list[cut..]| && list[cut..][q] == k[j];
      assert list[cut + q] == k[j];
    }
  }

  lemma {:induction false} RecentMiss(kept: seq<Buf>, ages: map<nat, nat>, buf: Buf, n: nat)
    requires Recent(kept, ages) && (forall b <- ages :: ages[b] < n)
             && forall i | 0 <= i < |kept| :: kept[i].no != buf.no
    ensures Recent([buf] + kept, ages[buf.no := n])
  {
    assert forall j | 0 < j <= |kept| :: ([buf] + kept)[j] == kept[j - 1];
  }

  /** Every block that is evicted was acquired longer ago than every evictable block that stays. */
  ghost predicate DropsOldest(list: seq<Buf>, kept: seq<Buf>, ages: map<nat, nat>)
  {
    forall i, j | 0 <= i < |list| && 0 <= j < |list| && list[i] !in kept && list[j] in kept && Evictable(list[j]) ::
      list[i].no in ages && list[j].no in ages && ages[list[i].no] < ages[list[j].no]
  }

  lemma {:induction false} EvictsOldest(list: seq<Buf>, ages: map<nat, nat>)
    requires Distinct(list) && Recent(list, ages)
    ensures DropsOldest(list, Trimmed(list), ages)
  {
    hide Trimmed;
    var kept := Trimmed(list);
    forall i, j | 0 <= i < |list| && 0 <= j < |list| && list[i] !in kept && list[j] in kept && Evictable(list[j])
      ensures ages[list[i].no] < ages[list[j].no]
    {
      if i < j {
        TrimmedIsLru(list, i, j);
      }
    }
  }

  // What the commit loops need to know.

  ghost predicate OnlyClients(held: map<nat, Holder>)
  {
    forall b <- held :: held[b].Client?
  }

  ghost predicate EntriesFree(h: Header, held: set<nat>)
    requires h.n <= |h.nos|
  {
    forall i :: 0 <= i < h.n ==> h.nos[i] !in held
  }

  lemma {:induction false} EntryFacts(cfg: Config, st: State, a: Abstract, i: nat)
    requires Inv(cfg, st, a) && !st.phase.Boot? && i < st.header.n
    ensures st.header.n <= |st.header.nos| && Home(cfg, st.header.nos[i])
    ensures !Home(cfg, Slot(cfg, i)) && Slot(cfg, i) != cfg.logStart && st.header.nos[i] != cfg.logStart
            && Slot(cfg, i) != st.header.nos[i]
    ensures OnlyClients(st.held) ==> Slot(cfg, i) !in st.held
  {
    hide DurableOnDisk, Phased, Accounted, SlotsShown, EntriesPinned, RestOnDisk, HomesShown, SlotsFilled, OnDisk;
    SlotsAreLog(cfg, st.header, i);
  }

  lemma {:induction false} HeldHome(cfg: Config, st: State, a: Abstract, b: nat)
    requires Inv(cfg, st, a) && !st.phase.Boot? && b in st.held && st.held[b].Client?
    ensures Home(cfg, b)
  {
    hide DurableOnDisk, Phased, Accounted, SlotsShown, EntriesPinned, RestOnDisk, HomesShown, SlotsFilled, OnDisk;
  }

  lemma {:induction false} DirtyHeld(cfg: Config, st: State, a: Abstract)
    requires Inv(cfg, st, a) && !st.phase.Boot?
    ensures st.dirty.Keys <= st.held.Keys
  {
    hide DurableOnDisk, Phased, Accounted, SlotsShown, EntriesPinned, RestOnDisk, HomesShown, SlotsFilled, OnDisk;
  }

  /** After a commit everything viewed is on disk, and nothing is reserved. */
  lemma {:induction false} Settled(cfg: Config, st: State, a: Abstract)
    requires Inv(cfg, st, a) && st.phase.Idle? && st.header.n == 0
    ensures st.ops == map[] ==> st.logUsed == 0
    ensures forall b: nat :: Home(cfg, b) ==> At(st.disk, b) == At(a.view, b)
  {
    hide DurableOnDisk, SlotsShown, EntriesPinned, HomesShown, SlotsFilled, OnDisk, SameHomes;
  }

  lemma {:induction false} InitiallyRecovered(cfg: Config, d: Disk)
    requires ValidConfig(cfg) && ValidHeader(cfg, OnDisk(cfg, d))
    ensures forall b: nat :: At(Initially(cfg, d).view, b) == Recovered(cfg, d, b)
  {
    forall b: nat ensures At(Initially(cfg, d).view, b) == Recovered(cfg, d, b) {
      PatchedAt(cfg, d, OnDisk(cfg, d), OnDisk(cfg, d).n, b);
    }
  }

  lemma {:induction false} EmptyShows()
    ensures Shows([], map[], {})
  {
    var none: seq<Buf> := [];
    assert Nos(none) == {};
  }

  lemma {:induction false} CountFacts(cfg: Config, st: State, a: Abstract)
    requires Inv(cfg, st, a) && !st.phase.Boot?
    ensures st.header.n <= |st.header.nos| == LOG_MAX_SIZE && a.ops == st.ops.Keys && st.dirty.Keys <= st.held.Keys
            && st.held.Keys <= st.cache.Keys
    ensures st.phase.Copy? ==> st.logUsed >= st.header.n
    ensures st.phase.Copy? || st.phase.Install? ==> st.ops == map[]
    ensures forall op <- st.ops ::
              st.phase.Idle? && st.outstanding > 0 && st.logUsed >= st.ops[op]
              && (st.outstanding == 1 <==> st.ops.Keys == {op})
    ensures forall op <- st.ops :: st.ops[op] > 0 ==> st.header.n < LOG_MAX_SIZE
  {
    hide DurableOnDisk, SlotsShown, EntriesPinned, RestOnDisk, HomesShown, SlotsFilled, OnDisk, Sum, SameHomes;
    forall op <- st.ops
      ensures st.phase.Idle? && st.outstanding > 0 && st.logUsed >= st.ops[op]
              && (st.outstanding == 1 <==> st.ops.Keys == {op})
      ensures st.ops[op] > 0 ==> st.header.n < LOG_MAX_SIZE
    {
      EndAccounted(cfg, st, op);
      if st.ops[op] > 0 {
        FirstSyncAccounted(cfg, st, op);
      }
    }
  }
}
