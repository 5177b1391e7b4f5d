/** Safety over whole runs: any interleaving, any number of crashes, also during recovery. */
module WalTheorem {
  import opened Blocks
  import opened Wal
  import opened Sums
  import opened WalSafety
  import opened WalSteps

  /** One action: what clients see is allowed, and the invariant survives. */
  lemma {:induction false} StepSafe(cfg: Config, s: State, a: Abstract, act: Action)
    requires Inv(cfg, s, a) && Enabled(cfg, s, act)
    ensures Allowed(a, Label(s, act)) && Inv(cfg, Apply(cfg, s, act), After(a, Label(s, act)))
  {
    hide Running, DurableOnDisk, DecodeHeader, EncodeHeader;
    if s.phase.Boot? {
      BootOnly(cfg, s, a, act);
    }
    match act
    case AcquireHit(h, b) => HoldKeeps(cfg, s, a, h, b);
    case AcquireMiss(h, b, evicted) => MissKeeps(cfg, s, a, h, b, evicted);
    case Load(b) => LoadKeeps(cfg, s, a, b);
    case Look(b) => LookKeeps(cfg, s, a, b);
    case Release(b) => ReleaseKeeps(cfg, s, a, b);
    case BeginOp(op) => BeginKeeps(cfg, s, a, op);
    case Modify(op, b, data) => ModifyKeeps(cfg, s, a, op, b, data);
    case Sync(op, b) =>
      if IndexOf(s.header, b, 0) < s.header.n {
        ResyncKeeps(cfg, s, a, op, b);
      } else {
        FirstSyncKeeps(cfg, s, a, op, b);
      }
    case EndOp(op) => EndKeeps(cfg, s, a, op);
    case CopyOne => CopyKeeps(cfg, s, a, s.phase.i);
    case WriteHeader => WriteHeaderKeeps(cfg, s, a);
    case InstallOne => InstallKeeps(cfg, s, a, s.phase.i);
    case ClearHeader => ClearKeeps(cfg, s, a);
    case BootRead => BootReadKeeps(cfg, s, a);
    case Crash => CrashKeeps(cfg, s, a);
  }

  /** Before the header has been read, nothing else can happen. */
  lemma {:induction false} BootOnly(cfg: Config, s: State, a: Abstract, act: Action)
    requires Inv(cfg, s, a) && s.phase.Boot? && Enabled(cfg, s, act)
    ensures act.Crash? || act.BootRead?
  {
    hide DurableOnDisk, DecodeHeader, EncodeHeader;
  }

  // Runs.

  /** `acts` leads from `s` to `s'`, and clients see the events `es`. */
  ghost predicate Run(cfg: Config, s: State, acts: seq<Action>, es: seq<Event>, s': State)
    decreases |acts|
  {
    if acts == [] then es == [] && s' == s
    else
      && ValidConfig(cfg) && |s.header.nos| == LOG_MAX_SIZE && Enabled(cfg, s, acts[0])
      && es != [] && es[0] == Label(s, acts[0])
      && Run(cfg, Apply(cfg, s, acts[0]), acts[1..], es[1..], s')
  }

  ghost function Promised(a: Abstract, es: seq<Event>): Abstract
    decreases |es|
  {
    if es == [] then a else Promised(After(a, es[0]), es[1..])
  }

  ghost predicate AllAllowed(a: Abstract, es: seq<Event>)
    decreases |es|
  {
    es == [] || (Allowed(a, es[0]) && AllAllowed(After(a, es[0]), es[1..]))
  }

  /** Every run, with any number of crashes anywhere in it, keeps the promise. */
  lemma {:induction false} RunSafe(cfg: Config, s: State, a: Abstract, acts: seq<Action>, es: seq<Event>, s': State)
    requires Inv(cfg, s, a) && Run(cfg, s, acts, es, s')
    ensures AllAllowed(a, es) && Inv(cfg, s', Promised(a, es))
    decreases |acts|
  {
    hide Inv, Enabled, Apply, Label;
    if acts != [] {
      StepSafe(cfg, s, a, acts[0]);
      RunSafe(cfg, Apply(cfg, s, acts[0]), After(a, Label(s, acts[0])), acts[1..], es[1..], s');
    }
  }

  // The first boot.

  /** The disk with the first `n` entries of `h` replayed from their slots. */
  ghost function Patched(cfg: Config, d: Disk, h: Header, n: nat): Disk
    requires n <= |h.nos|
  {
    if n == 0 then d else Patched(cfg, d, h, n - 1)[h.nos[n - 1] := At(d, Slot(cfg, n - 1))]
  }

  lemma {:induction false} PatchedAt(cfg: Config, d: Disk, h: Header, n: nat, b: nat)
    requires n <= |h.nos|
    ensures At(Patched(cfg, d, h, n), b) == Replayed(cfg, d, h, n, b)
  {
    if n > 0 {
      PatchedAt(cfg, d, h, n - 1, b);
    }
  }

  ghost function Initially(cfg: Config, d: Disk): Abstract
    requires ValidConfig(cfg) && ValidHeader(cfg, OnDisk(cfg, d))
  {
    var d' := Patched(cfg, d, OnDisk(cfg, d), OnDisk(cfg, d).n);
    Abstract(d', d', {})
  }

  lemma {:induction false} BootsSafe(cfg: Config, d: Disk)
    requires ValidConfig(cfg) && ValidHeader(cfg, OnDisk(cfg, d))
    ensures Inv(cfg, Rebooted(d), Initially(cfg, d))
  {
    hide DecodeHeader, Encodable;
    forall b: nat ensures At(Initially(cfg, d).durable, b) == Recovered(cfg, d, b) {
      PatchedAt(cfg, d, OnDisk(cfg, d), OnDisk(cfg, d).n, b);
    }
  }

  // Crash atomicity.

  /** Once no commit or recovery is in progress, every home block on disk is in its durable state. */
  lemma {:induction false} SettledOnDisk(cfg: Config, s: State, a: Abstract, b: nat)
    requires Inv(cfg, s, a) && s.phase.Idle? && Home(cfg, b)
    ensures At(s.disk, b) == At(a.durable, b)
  {
    hide DecodeHeader, Encodable;
    RecoveredClear(cfg, s.disk);
  }

  /**
   For every run from a formatted disk, however often it crashes: whenever recovery has
   completed, the home blocks are exactly the durable state that the run's events promise.
   */
  lemma {:induction false} CrashAtomic(cfg: Config, d: Disk, acts: seq<Action>, es: seq<Event>, s: State, b: nat)
    requires ValidConfig(cfg) && ValidHeader(cfg, OnDisk(cfg, d)) && Run(cfg, Rebooted(d), acts, es, s)
    requires s.phase.Idle? && Home(cfg, b)
    ensures AllAllowed(Initially(cfg, d), es) && At(s.disk, b) == At(Promised(Initially(cfg, d), es).durable, b)
  {
    BootsSafe(cfg, d);
    RunSafe(cfg, Rebooted(d), Initially(cfg, d), acts, es, s);
    SettledOnDisk(cfg, s, Promised(Initially(cfg, d), es), b);
  }

  /** At every moment, also in the middle of a commit or of a recovery, recovering the disk would give that state. */
  lemma {:induction false} AlwaysRecoverable(cfg: Config, d: Disk, acts: seq<Action>, es: seq<Event>, s: State, b: nat)
    requires ValidConfig(cfg) && ValidHeader(cfg, OnDisk(cfg, d)) && Run(cfg, Rebooted(d), acts, es, s) && Home(cfg, b)
    ensures ValidHeader(cfg, OnDisk(cfg, s.disk))
            && Recovered(cfg, s.disk, b) == At(Promised(Initially(cfg, d), es).durable, b)
  {
    hide DecodeHeader, Encodable, Running, Recovered;
    BootsSafe(cfg, d);
    RunSafe(cfg, Rebooted(d), Initially(cfg, d), acts, es, s);
  }

  /**
   The durable state is the view as it stood at some commit, when no operation was running:
   groups are never mixed.
   */
  lemma {:induction false} DurableIsWholeGroups(a: Abstract, es: seq<Event>)
    requires AllAllowed(a, es)
    ensures Promised(a, es).durable == a.durable ||
            exists k :: 0 <= k < |es| && es[k] == Committed && Promised(a, es[..k]).ops == {}
                        && Promised(a, es).durable == Promised(a, es[..k]).view
    decreases |es|
  {
    if es != [] {
      var a', rest := After(a, es[0]), es[1..];
      DurableIsWholeGroups(a', rest);
      if Promised(a', rest).durable == a'.durable {
        if es[0] == Committed {
          assert es[..0] == [];
        }
      } else {
        var k :| 0 <= k < |rest| && rest[k] == Committed && Promised(a', rest[..k]).ops == {}
          && Promised(a', rest).durable == Promised(a', rest[..k]).view;
        assert es[..k + 1][1..] == rest[..k];
        assert es[k + 1] == Committed;
      }
    }
  }

  // Log accounting.

  /** Between commits the reservations add up, and every slot in use lies inside the log area. */
  ghost predicate LogFits(cfg: Config, s: State)
    requires ValidConfig(cfg) && s.header.n <= |s.header.nos|
  {
    && (!s.phase.Install? ==> s.logUsed == s.header.n + Sum(s.ops))
    && s.header.n <= LogSize(cfg) <= LOG_MAX_SIZE && s.logUsed <= LogSize(cfg) && s.outstanding == |s.ops|
    && (forall i, j :: 0 <= i < j < s.header.n ==> s.header.nos[i] != s.header.nos[j])
    && forall i: nat :: i < s.header.n ==> cfg.logStart < Slot(cfg, i) < cfg.logStart + cfg.numLogBlocks
  }

  lemma {:induction false} InvAccounted(cfg: Config, s: State, a: Abstract)
    requires Inv(cfg, s, a) && !s.phase.Boot?
    ensures ValidConfig(cfg) && s.header.n <= |s.header.nos| && LogFits(cfg, s)
  {
    hide DecodeHeader, Encodable, Sum, DurableOnDisk;
  }

  lemma {:induction false} InvNoUnderflow(cfg: Config, s: State, a: Abstract, op: nat, b: nat)
    requires Inv(cfg, s, a) && op in s.ops
    ensures op !in s.dirty.Values ==> Enabled(cfg, s, EndOp(op))
    ensures Ready(s, b) && s.held[b].Client? && Wide(b) && (b in s.dirty ==> s.dirty[b] == op) && s.ops[op] > 0 ==>
              Enabled(cfg, s, Sync(op, b))
  {
    hide DecodeHeader, Encodable, Sum, DurableOnDisk, RestOnDisk, SlotsFilled, SlotsShown, HomesShown, EntriesPinned;
    EndAccounted(cfg, s, op);
    if s.ops[op] > 0 {
      FirstSyncAccounted(cfg, s, op);
    }
  }

  /** In every state that a run reaches once the header has been read, the log is accounted for. */
  lemma {:induction false} LogAccounted(cfg: Config, d: Disk, acts: seq<Action>, es: seq<Event>, s: State)
    requires ValidConfig(cfg) && ValidHeader(cfg, OnDisk(cfg, d)) && Run(cfg, Rebooted(d), acts, es, s)
             && !s.phase.Boot?
    ensures ValidConfig(cfg) && s.header.n <= |s.header.nos| && LogFits(cfg, s)
  {
    hide Inv, LogFits;
    BootsSafe(cfg, d);
    RunSafe(cfg, Rebooted(d), Initially(cfg, d), acts, es, s);
    InvAccounted(cfg, s, Promised(Initially(cfg, d), es));
  }

  /**
   In every state that a run reaches: ending an operation never makes a counter go below
   zero, and an operation with reservations left can always sync.
   */
  lemma {:induction false} NoUnderflow(cfg: Config, d: Disk, acts: seq<Action>, es: seq<Event>, s: State, op: nat,
                                       b: nat)
    requires ValidConfig(cfg) && ValidHeader(cfg, OnDisk(cfg, d)) && Run(cfg, Rebooted(d), acts, es, s) && op in s.ops
    ensures |s.header.nos| == LOG_MAX_SIZE
    ensures op !in s.dirty.Values ==> Enabled(cfg, s, EndOp(op))
    ensures Ready(s, b) && s.held[b].Client? && Wide(b) && (b in s.dirty ==> s.dirty[b] == op) && s.ops[op] > 0 ==>
              Enabled(cfg, s, Sync(op, b))
  {
    hide Enabled, Ready;
    BootsSafe(cfg, d);
    RunSafe(cfg, Rebooted(d), Initially(cfg, d), acts, es, s);
    InvNoUnderflow(cfg, s, Promised(Initially(cfg, d), es), op, b);
  }

  /** A crash may strike in any state and leaves only the disk. */
  lemma {:induction false} CrashesAnywhere(cfg: Config, s: State)
    requires ValidConfig(cfg) && |s.header.nos| == LOG_MAX_SIZE
    ensures Enabled(cfg, s, Crash) && Apply(cfg, s, Crash).disk == s.disk
    ensures var s' := Apply(cfg, s, Crash); s'.cache == map[] && s'.held == map[] && s'.ops == map[] && s'.header.n == 0
  {
  }

  /** `d'` is `d` but for block `b`. */
  ghost predicate WrittenAt(d: Disk, d': Disk, b: nat)
  {
    forall c: nat | c != b :: At(d', c) == At(d, c)
  }

  /** A step writes at most one block, and only the commit and the recovery write any. */
  lemma {:induction false} OneWrite(cfg: Config, s: State, act: Action)
    requires ValidConfig(cfg) && |s.header.nos| == LOG_MAX_SIZE && Enabled(cfg, s, act)
    ensures exists b: nat :: WrittenAt(s.disk, Apply(cfg, s, act).disk, b)
    ensures act.CopyOne? || act.WriteHeader? || act.InstallOne? || act.ClearHeader? || Apply(cfg, s, act).disk == s.disk
  {
    hide EncodeHeader, DecodeHeader, IndexOf, MayAcquire, WrittenAt;
    var d := Apply(cfg, s, act).disk;
    match act
    case CopyOne => OneChanged(s.disk, d, Slot(cfg, s.phase.i));
    case InstallOne => OneChanged(s.disk, d, s.header.nos[s.phase.i]);
    case _ => OneChanged(s.disk, d, cfg.logStart);
  }

  lemma {:induction false} OneChanged(d: Disk, d': Disk, b: nat)
    requires d' == d || (b in d' && d' == d[b := d'[b]])
    ensures WrittenAt(d, d', b)
  {
  }
}
