/**
 The write-ahead log and the block cache as a step machine. Each action is one
 critical section or one device access of the kernel; threads interleave freely
 between actions, and a crash may strike before or after any of them.
 */
module Wal {
  import opened Blocks

  const OP_MAX_NUM_BLOCKS: nat := 10

  /** The fields of the super block that the log uses. */
  datatype Config = Config(logStart: nat, numLogBlocks: nat)

  predicate ValidConfig(cfg: Config)
  {
    cfg.numLogBlocks >= 1 && Wide(cfg.logStart + cfg.numLogBlocks)
  }

  /** The log is used in full: all 63 entries of the header, or every block after it. */
  function LogSize(cfg: Config): (r: nat)
    requires ValidConfig(cfg)
    ensures r <= 63 && 1 + r <= cfg.numLogBlocks && (r == 63 || 1 + r == cfg.numLogBlocks)
  {
    if LOG_MAX_SIZE <= cfg.numLogBlocks - 1 then LOG_MAX_SIZE else cfg.numLogBlocks - 1
  }

  /** Blocks outside the log area, the only ones clients may touch. */
  predicate Home(cfg: Config, b: nat)
  {
    b < cfg.logStart || cfg.logStart + cfg.numLogBlocks <= b
  }

  function Slot(cfg: Config, i: nat): nat
  {
    cfg.logStart + 1 + i
  }

  datatype Holder = Client(tid: nat) | Committer
  datatype Cached = Cached(data: Block, pinned: bool)

  /** Where the committing (or booting) thread is. `Idle` is `log.committing == false`. */
  datatype Phase = Idle | Copy(i: nat) | Install(i: nat) | Boot

  datatype State = State(
    disk: Disk,
    cache: map<nat, Cached>,      // the blocks on the `head` list
    held: map<nat, Holder>,       // `acquired`, and by whom
    loading: set<nat>,            // inserted by a miss, `device_read` still to come
    dirty: map<nat, nat>,         // changed by an operation, not yet synced
    header: Header,
    logUsed: nat,
    outstanding: nat,
    ops: map<nat, nat>,           // `rm` of every live operation
    phase: Phase,
    booting: bool)

  datatype Action =
    | AcquireHit(h: Holder, b: nat)
    | AcquireMiss(h: Holder, b: nat, evicted: set<nat>)
    | Load(b: nat)
    | Look(b: nat)
    | Release(b: nat)
    | BeginOp(op: nat)
    | Modify(op: nat, b: nat, data: Block)
    | Sync(op: nat, b: nat)
    | EndOp(op: nat)
    | CopyOne
    | WriteHeader
    | InstallOne
    | ClearHeader
    | BootRead
    | Crash

  /** The first header entry for `b`, or `h.n` if there is none. */
  function IndexOf(h: Header, b: nat, i: nat): (k: nat)
    requires i <= h.n <= |h.nos|
    ensures i <= k <= h.n
    ensures k < h.n ==> h.nos[k] == b
    ensures forall j :: i <= j < k ==> h.nos[j] != b
    decreases h.n - i
  {
    if i == h.n || h.nos[i] == b then i else IndexOf(h, b, i + 1)
  }

  predicate Ready(s: State, b: nat)
  {
    b in s.cache && b in s.held && b !in s.loading
  }

  predicate HeldByCommitter(s: State, b: nat)
  {
    Ready(s, b) && s.held[b] == Committer
  }

  /** Who may acquire what: clients home blocks while the system runs, the committer its slots and homes. */
  predicate MayAcquire(cfg: Config, s: State, h: Holder, b: nat)
  {
    match h
    case Client(_) => Home(cfg, b) && !s.booting && !s.phase.Boot?
    case Committer => b != cfg.logStart && (s.phase.Copy? || s.phase.Install?)
  }

  predicate Enabled(cfg: Config, s: State, act: Action)
    requires ValidConfig(cfg) && |s.header.nos| == LOG_MAX_SIZE
  {
    match act
    case AcquireHit(h, b) => MayAcquire(cfg, s, h, b) && b in s.cache && b !in s.held
    case AcquireMiss(h, b, evicted) =>
      && MayAcquire(cfg, s, h, b) && b !in s.cache
      && evicted <= s.cache.Keys && (forall e <- evicted :: e !in s.held && !s.cache[e].pinned)
    case Load(b) => b in s.loading && b in s.cache
    case Look(b) => Ready(s, b) && Home(cfg, b) && s.held[b].Client? && b !in s.dirty
    case Release(b) => Ready(s, b) && b !in s.dirty
    case BeginOp(op) => s.phase.Idle? && op !in s.ops && s.logUsed + OP_MAX_NUM_BLOCKS <= LogSize(cfg)
    case Modify(op, b, data) => Ready(s, b) && s.held[b].Client? && Home(cfg, b) && Wide(b) && op in s.ops
      && (b in s.dirty ==> s.dirty[b] == op)
    case Sync(op, b) =>
      && Ready(s, b) && s.held[b].Client? && Home(cfg, b) && Wide(b) && op in s.ops
        && (b in s.dirty ==> s.dirty[b] == op)
      && s.header.n <= LOG_MAX_SIZE
      && (IndexOf(s.header, b, 0) == s.header.n ==> s.ops[op] > 0 && s.header.n < LOG_MAX_SIZE)
    case EndOp(op) => op in s.ops && s.outstanding > 0 && s.logUsed >= s.ops[op] && op !in s.dirty.Values
    case CopyOne =>
      && s.phase.Copy? && s.phase.i < s.header.n <= LOG_MAX_SIZE
      && HeldByCommitter(s, Slot(cfg, s.phase.i)) && HeldByCommitter(s, s.header.nos[s.phase.i])
    case WriteHeader => s.phase.Copy? && s.phase.i == s.header.n && s.logUsed >= s.header.n
    case InstallOne =>
      && s.phase.Install? && s.phase.i < s.header.n <= LOG_MAX_SIZE
      && HeldByCommitter(s, Slot(cfg, s.phase.i)) && HeldByCommitter(s, s.header.nos[s.phase.i])
    case ClearHeader => s.phase.Install? && s.phase.i == s.header.n
    case BootRead => s.phase.Boot?
    case Crash => true
  }

  /** Memory as `init_bcache` finds it. */
  function Rebooted(disk: Disk): State
  {
    State(disk, map[], map[], {}, map[], Header(0, Naught(LOG_MAX_SIZE)), 0, 0, map[], Boot, true)
  }

  function Naught(n: nat): (s: seq<nat>)
    ensures |s| == n && forall i :: 0 <= i < n ==> s[i] == 0
  {
    seq(n, i => 0)
  }

  // The effect of each action.

  function AfterMiss(s: State, h: Holder, b: nat, evicted: set<nat>): State
  {
    s.(cache := (s.cache - evicted)[b := Cached(Zeros(512), false)], held := s.held[b := h], loading := s.loading + {b})
  }

  function AfterLoad(s: State, b: nat): State
    requires b in s.cache
  {
    s.(cache := s.cache[b := s.cache[b].(data := At(s.disk, b))], loading := s.loading - {b})
  }

  function AfterBegin(s: State, op: nat): State
  {
    s.(ops := s.ops[op := OP_MAX_NUM_BLOCKS], logUsed := s.logUsed + OP_MAX_NUM_BLOCKS,
      outstanding := s.outstanding + 1)
  }

  function AfterModify(s: State, op: nat, b: nat, data: Block): State
    requires b in s.cache
  {
    s.(cache := s.cache[b := s.cache[b].(data := data)], dirty := s.dirty[b := op])
  }

  function AfterSync(s: State, op: nat, b: nat): State
    requires b in s.cache && op in s.ops && s.header.n <= |s.header.nos|
    requires IndexOf(s.header, b, 0) == s.header.n ==> s.ops[op] > 0 && s.header.n < |s.header.nos|
  {
    if IndexOf(s.header, b, 0) < s.header.n then
      s.(dirty := s.dirty - {b})
    else
      s.(dirty := s.dirty - {b},
         header := Header(s.header.n + 1, s.header.nos[s.header.n := b]),
         ops := s.ops[op := s.ops[op] - 1],
         cache := s.cache[b := s.cache[b].(pinned := true)])
  }

  function AfterEnd(s: State, op: nat): State
    requires op in s.ops && s.outstanding > 0 && s.logUsed >= s.ops[op]
  {
    s.(logUsed := s.logUsed - s.ops[op], ops := s.ops - {op}, outstanding := s.outstanding - 1,
       phase := if s.outstanding == 1 then Copy(0) else s.phase)
  }

  function AfterCopy(cfg: Config, s: State, i: nat): State
    requires i < |s.header.nos| && Slot(cfg, i) in s.cache && s.header.nos[i] in s.cache
  {
    var x, data := Slot(cfg, i), s.cache[s.header.nos[i]].data;
    s.(cache := s.cache[x := s.cache[x].(data := data)], disk := s.disk[x := data], phase := Copy(i + 1))
  }

  function AfterWriteHeader(cfg: Config, s: State): State
    requires |s.header.nos| == LOG_MAX_SIZE && s.logUsed >= s.header.n
  {
    s.(disk := s.disk[cfg.logStart := EncodeHeader(s.header)], logUsed := s.logUsed - s.header.n, phase := Install(0))
  }

  function AfterInstall(cfg: Config, s: State, i: nat): State
    requires i < |s.header.nos| && Slot(cfg, i) in s.cache && s.header.nos[i] in s.cache
  {
    var y, data := s.header.nos[i], s.cache[Slot(cfg, i)].data;
    s.(cache := s.cache[y := Cached(data, false)], disk := s.disk[y := data], phase := Install(i + 1))
  }

  function AfterClear(cfg: Config, s: State): State
    requires |s.header.nos| == LOG_MAX_SIZE
  {
    var h := s.header.(n := 0);
    s.(header := h, disk := s.disk[cfg.logStart := EncodeHeader(h)], phase := Idle, booting := false)
  }

  function AfterBootRead(cfg: Config, s: State): State
  {
    s.(header := DecodeHeader(At(s.disk, cfg.logStart)), phase := Install(0))
  }

  function Apply(cfg: Config, s: State, act: Action): (s': State)
    requires ValidConfig(cfg) && |s.header.nos| == LOG_MAX_SIZE && Enabled(cfg, s, act)
    ensures |s'.header.nos| == LOG_MAX_SIZE
  {
    match act
    case AcquireHit(h, b) => s.(held := s.held[b := h])
    case AcquireMiss(h, b, evicted) => AfterMiss(s, h, b, evicted)
    case Load(b) => AfterLoad(s, b)
    case Look(b) => s
    case Release(b) => s.(held := s.held - {b})
    case BeginOp(op) => AfterBegin(s, op)
    case Modify(op, b, data) => AfterModify(s, op, b, data)
    case Sync(op, b) => AfterSync(s, op, b)
    case EndOp(op) => AfterEnd(s, op)
    case CopyOne => AfterCopy(cfg, s, s.phase.i)
    case WriteHeader => AfterWriteHeader(cfg, s)
    case InstallOne => AfterInstall(cfg, s, s.phase.i)
    case ClearHeader => AfterClear(cfg, s)
    case BootRead => AfterBootRead(cfg, s)
    case Crash => Rebooted(s.disk)
  }

  // What clients are promised: operations on one volatile view, whole groups of which become durable.

  datatype Abstract = Abstract(view: Disk, durable: Disk, ops: set<nat>)

  datatype Event =
    | Silent
    | Began(op: nat)
    | Synced(op: nat, b: nat, data: Block)
    | Saw(b: nat, data: Block)
    | Ended(op: nat)
    | Committed
    | Crashed

  function Label(s: State, act: Action): Event
  {
    match act
    case Look(b) => if b in s.cache then Saw(b, s.cache[b].data) else Silent
    case BeginOp(op) => Began(op)
    case Sync(op, b) => if b in s.cache then Synced(op, b, s.cache[b].data) else Silent
    case EndOp(op) => Ended(op)
    case WriteHeader => Committed
    case Crash => Crashed
    case _ => Silent
  }

  /** Reads return the last synced content; a group commits only while no operation is running. */
  predicate Allowed(a: Abstract, e: Event)
  {
    match e
    case Silent => true
    case Began(op) => op !in a.ops
    case Synced(op, _, _) => op in a.ops
    case Saw(b, data) => data == At(a.view, b)
    case Ended(op) => op in a.ops
    case Committed => a.ops == {}
    case Crashed => true
  }

  function After(a: Abstract, e: Event): Abstract
  {
    match e
    case Silent => a
    case Began(op) => a.(ops := a.ops + {op})
    case Synced(_, b, data) => a.(view := a.view[b := data])
    case Saw(_, _) => a
    case Ended(op) => a.(ops := a.ops - {op})
    case Committed => a.(durable := a.view)
    case Crashed => Abstract(a.durable, a.durable, {})
  }

  // What recovery makes of a disk.

  /** Block `b` after replaying the first `n` entries of `h` from the log slots of `d`. */
  function Replayed(cfg: Config, d: Disk, h: Header, n: nat, b: nat): Block
    requires n <= |h.nos|
  {
    if n == 0 then At(d, b) else if h.nos[n - 1] == b then At(d, Slot(cfg, n - 1)) else Replayed(cfg, d, h, n - 1, b)
  }

  function OnDisk(cfg: Config, d: Disk): (h: Header)
    ensures |h.nos| == LOG_MAX_SIZE
  {
    DecodeHeader(At(d, cfg.logStart))
  }

  /** Distinct home blocks, few enough for the log area. */
  predicate ValidHeader(cfg: Config, h: Header)
    requires ValidConfig(cfg)
  {
    && Encodable(h) && h.n <= LogSize(cfg)
    && (forall i :: 0 <= i < h.n ==> Home(cfg, h.nos[i]))
    && (forall i, j :: 0 <= i < j < h.n ==> h.nos[i] != h.nos[j])
  }

  /** What `init_bcache` turns block `b` of disk `d` into. */
  function Recovered(cfg: Config, d: Disk, b: nat): Block
    requires ValidConfig(cfg) && ValidHeader(cfg, OnDisk(cfg, d))
  {
    Replayed(cfg, d, OnDisk(cfg, d), OnDisk(cfg, d).n, b)
  }
}
