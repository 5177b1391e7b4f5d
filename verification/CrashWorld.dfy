/**
 The file system on top of the log. If every stretch of operations between two quiet
 moments keeps the file system whole, then so does any run, with any crashes in it, and the
 disk is whole again after recovery.
 */
module CrashWorld {
  import opened Blocks
  import opened FsLayout
  import opened Files
  import opened Wal
  import opened WalTheorem
  import opened CacheHistory
  import opened Volume

  /** The log lies below the inodes. */
  predicate Apart(cfg: Config, lay: Layout)
  {
    cfg.logStart + cfg.numLogBlocks <= lay.inodeStart
  }

  // Stretches of operations.

  /** What clients have been promised after `n` events. */
  ghost function Upto(a: Abstract, es: seq<Event>, n: nat): Abstract
    requires n <= |es|
  {
    Promised(a, es[..n])
  }

  /** No operation is running after `n` events. */
  ghost predicate Quiet(a: Abstract, es: seq<Event>, n: nat)
    requires n <= |es|
  {
    Upto(a, es, n).ops == {}
  }

  /** From one quiet moment to the next one, without a crash: one operation, or several that overlap. */
  ghost predicate Stretch(a: Abstract, es: seq<Event>, i: nat, j: nat)
    requires i < j <= |es|
  {
    && Quiet(a, es, i) && Quiet(a, es, j)
    && (forall k | i < k < j :: !Quiet(a, es, k)) && (forall k | i <= k < j :: es[k] != Crashed)
  }

  /** Every stretch that starts on a whole file system ends on one. */
  ghost predicate KeepsWhole(lay: Layout, a: Abstract, es: seq<Event>)
  {
    forall i, j | 0 <= i < j <= |es| && Stretch(a, es, i, j) ::
      Consistent(lay, Upto(a, es, i).view) ==> Consistent(lay, Upto(a, es, j).view)
  }

  lemma {:induction false} UptoNext(a: Abstract, es: seq<Event>, n: nat)
    requires n < |es|
    ensures Upto(a, es, n + 1) == After(Upto(a, es, n), es[n])
  {
    assert es[..n + 1] == es[..n] + [es[n]];
    PromisedMore(a, es[..n], es[n]);
  }

  lemma {:induction false} AllowedAt(a: Abstract, es: seq<Event>, n: nat)
    requires AllAllowed(a, es) && n < |es|
    ensures Allowed(Upto(a, es, n), es[n])
    decreases n
  {
    if n > 0 {
      AllowedAt(After(a, es[0]), es[1..], n - 1);
      assert es[..n][1..] == es[1..][..n - 1];
    } else {
      assert es[..0] == [];
    }
  }

  /** The last quiet moment up to the `n`th event. */
  ghost function LastQuiet(a: Abstract, es: seq<Event>, n: nat): (q: nat)
    requires a.ops == {} && n <= |es|
    ensures q <= n && Quiet(a, es, q) && forall k | q < k <= n :: !Quiet(a, es, k)
  {
    if Quiet(a, es, n) then n else
      assert n != 0 by { assert es[..0] == []; }
      LastQuiet(a, es, n - 1)
  }

  /** Between a quiet moment and the one before it lies a stretch, or a crash has just happened. */
  lemma {:induction false} StretchBefore(a: Abstract, es: seq<Event>, n: nat)
    requires a.ops == {} && 0 < n <= |es| && Quiet(a, es, n) && es[n - 1] != Crashed
    ensures Stretch(a, es, LastQuiet(a, es, n - 1), n)
  {
    var q := LastQuiet(a, es, n - 1);
    forall k | q <= k < n ensures es[k] != Crashed {
      if es[k] == Crashed {
        UptoNext(a, es, k);
        assert Quiet(a, es, k + 1);
      }
    }
  }

  /** At every moment what is durable is whole, and at quiet moments so is what clients see. */
  lemma {:induction false} AlwaysWhole(lay: Layout, a: Abstract, es: seq<Event>, n: nat)
    requires a.ops == {} && AllAllowed(a, es) && KeepsWhole(lay, a, es) && n <= |es|
    requires Consistent(lay, a.view) && Consistent(lay, a.durable)
    ensures Consistent(lay, Upto(a, es, n).durable) && (Quiet(a, es, n) ==> Consistent(lay, Upto(a, es, n).view))
    decreases n
  {
    hide Consistent, Upto, Stretch;
    if n == 0 {
      UptoNone(a, es);
    } else {
      AlwaysWhole(lay, a, es, n - 1);
      UptoNext(a, es, n - 1);
      AllowedAt(a, es, n - 1);
      if Quiet(a, es, n) && es[n - 1] != Crashed {
        StretchBefore(a, es, n);
        AlwaysWhole(lay, a, es, LastQuiet(a, es, n - 1));
      }
    }
  }

  lemma {:induction false} UptoNone(a: Abstract, es: seq<Event>)
    ensures Upto(a, es, 0) == a
  {
    assert es[..0] == [];
  }

  lemma {:induction false} StartsQuiet(cfg: Config, d: Disk)
    requires ValidConfig(cfg) && ValidHeader(cfg, OnDisk(cfg, d))
    ensures Initially(cfg, d).ops == {} && Initially(cfg, d).durable == Initially(cfg, d).view
  {
  }

  /** If the view is whole at every quiet moment, then so it is after every stretch. */
  lemma {:induction false} QuietKeeps(lay: Layout, good: Disk -> bool, cfg: Config, d: Disk, es: seq<Event>, n: nat)
    requires ValidConfig(cfg) && ValidHeader(cfg, OnDisk(cfg, d)) && QuietGood(good, cfg, d, es) && n <= |es|
    requires forall v :: good(v) ==> Consistent(lay, v)
    ensures Consistent(lay, Initially(cfg, d).view) && KeepsWhole(lay, Initially(cfg, d), es[..n])
  {
    hide Consistent, Initially, ValidHeader;
    var a := Initially(cfg, d);
    StartsQuiet(cfg, d);
    assert es[..0] == [];
    forall j | 0 <= j <= n && Quiet(a, es[..n], j) ensures Consistent(lay, Upto(a, es[..n], j).view) {
      assert es[..n][..j] == es[..j];
      assert GoodAt(good, Promise(cfg, d, es[..j]));
    }
  }

  /**
   The file system survives. For every run from a disk whose recovery gives a whole file
   system, however often it crashes: at every moment, recovering the disk as it stands gives
   a whole file system, and once recovery has completed the disk holds one.
   */
  lemma {:induction false} CrashConsistent(cfg: Config, lay: Layout, d: Disk, acts: seq<Action>, es: seq<Event>,
                                           s: State)
    requires ValidConfig(cfg) && ValidHeader(cfg, OnDisk(cfg, d)) && Run(cfg, Rebooted(d), acts, es, s)
             && Apart(cfg, lay)
    requires Consistent(lay, Initially(cfg, d).view) && KeepsWhole(lay, Initially(cfg, d), es)
    ensures ValidHeader(cfg, OnDisk(cfg, s.disk)) && Consistent(lay, Initially(cfg, s.disk).view)
    ensures s.phase.Idle? ==> Consistent(lay, s.disk)
  {
    hide Consistent, KeepsWhole, Recovered, OnDisk, ValidHeader, Run, Initially;
    var a := Initially(cfg, d);
    StartsQuiet(cfg, d);
    BootsSafe(cfg, d);
    RunSafe(cfg, Rebooted(d), a, acts, es, s);
    AlwaysWhole(lay, a, es, |es|);
    assert es[..|es|] == es;
    var whole := Promised(a, es).durable;
    AlwaysRecoverable(cfg, d, acts, es, s, lay.inodeStart);
    InitiallyRecovered(cfg, s.disk);
    forall b: nat | lay.inodeStart <= b ensures At(Initially(cfg, s.disk).view, b) == At(whole, b) {
      AlwaysRecoverable(cfg, d, acts, es, s, b);
    }
    ConsistentFrom(lay, whole, Initially(cfg, s.disk).view);
    if s.phase.Idle? {
      forall b: nat | lay.inodeStart <= b ensures At(s.disk, b) == At(whole, b) {
        CrashAtomic(cfg, d, acts, es, s, b);
      }
      ConsistentFrom(lay, whole, s.disk);
    }
  }

  /**
   What a history of cache calls is worth: if clients have left the file system whole
   whenever none of them was in an operation, then a crash after any step of the history
   leaves a disk whose recovery gives a whole file system.
   */
  lemma {:induction false} HistorySurvives(lay: Layout, good: Disk -> bool, cfg: Config, d: Disk, acts: seq<Action>,
                                           es: seq<Event>, s: State, n: nat, s': State)
    requires Followed(cfg, d, acts, es, s) && QuietGood(good, cfg, d, es) && Apart(cfg, lay)
    requires forall v :: good(v) ==> Consistent(lay, v)
    requires n <= |acts| && n <= |es| && Run(cfg, Rebooted(d), acts[..n], es[..n], s')
    ensures ValidHeader(cfg, OnDisk(cfg, s'.disk)) && Consistent(lay, Initially(cfg, s'.disk).view)
  {
    hide Run, QuietGood, Consistent, KeepsWhole, OnDisk, ValidHeader, Initially;
    QuietKeeps(lay, good, cfg, d, es, n);
    CrashConsistent(cfg, lay, d, acts[..n], es[..n], s');
  }

  lemma {:induction false} DurableNow(cfg: Config, lay: Layout, d: Disk, acts: seq<Action>, es: seq<Event>, s: State,
                                      view: Disk)
    requires Followed(cfg, d, acts, es, s) && Apart(cfg, lay)
    requires SameFrom(Promise(cfg, d, es).durable, view, lay.inodeStart)
    ensures ValidHeader(cfg, OnDisk(cfg, s.disk)) && SameFrom(view, Initially(cfg, s.disk).view, lay.inodeStart)
  {
    hide Run, OnDisk, ValidHeader, Initially, Recovered, Promised;
    AlwaysRecoverable(cfg, d, acts, es, s, lay.inodeStart);
    InitiallyRecovered(cfg, s.disk);
    forall b: nat | lay.inodeStart <= b ensures At(Initially(cfg, s.disk).view, b) == At(view, b) {
      AlwaysRecoverable(cfg, d, acts, es, s, b);
    }
  }

  /** Recovering `disk` gives what clients saw after `j` events, when no operation was running. */
  ghost predicate AsAt(cfg: Config, lay: Layout, d: Disk, es: seq<Event>, j: nat, disk: Disk)
    requires j <= |es|
  {
    && ValidConfig(cfg) && ValidHeader(cfg, OnDisk(cfg, disk)) && Promise(cfg, d, es[..j]).ops == {}
    && SameFrom(Promise(cfg, d, es[..j]).view, Initially(cfg, disk).view, lay.inodeStart)
  }

  /**
   After any history, a crash takes the file system back to such a moment: operations happen as
   a whole or not at all.
   */
  lemma {:induction false} HistoryAtomic(cfg: Config, lay: Layout, d: Disk, acts: seq<Action>, es: seq<Event>, s: State)
    requires Followed(cfg, d, acts, es, s) && Apart(cfg, lay)
    ensures exists j :: 0 <= j <= |es| && AsAt(cfg, lay, d, es, j, s.disk)
  {
    hide Run, OnDisk, ValidHeader, Initially, SameFrom;
    var a := Initially(cfg, d);
    StartsQuiet(cfg, d);
    BootsSafe(cfg, d);
    RunSafe(cfg, Rebooted(d), a, acts, es, s);
    DurableIsWholeGroups(a, es);
    var durable := Promised(a, es).durable;
    var j := 0;
    if durable != a.durable {
      j :| 0 <= j < |es| && es[j] == Committed && Promised(a, es[..j]).ops == {}
        && durable == Promised(a, es[..j]).view;
    } else {
      assert es[..0] == [];
    }
    assert SameFrom(durable, durable, lay.inodeStart) by { SameAsItself(durable, lay.inodeStart); }
    DurableNow(cfg, lay, d, acts, es, s, durable);
    assert AsAt(cfg, lay, d, es, j, s.disk);
  }

  lemma SameAsItself(view: Disk, lo: nat)
    ensures SameFrom(view, view, lo)
  {
  }
}
