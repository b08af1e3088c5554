/** The engine as a machine of atomic steps, with a crash possible between any two.

    Each label is one point at which the source's `put`, `delete`, `flush`, `close` and
    `open` change something durable or shared. The log is kept at byte level; tables are
    the maps their files stand for. */
module EngineMachine {
  import opened Bytes
  import opened Errors
  import opened WalEntries
  import opened WalRecovery
  import opened WalWriters
  import opened Layers
  import opened MemTables

  datatype Config = Config(sync: SyncStrategy, limit: nat)

  datatype Phase =
    | Idle                     // no write in progress
    | Appended(op: Operation)  // record written, sync strategy not yet applied
    | Logged(op: Operation)    // append returned
    | FlushDue                 // flush_internal entered with a non-empty memtable
    | TableAdded               // table durable and listed, memtable not yet cleared
    | MemCleared               // memtable cleared, log not yet truncated
    | Down                     // not running
    | Replayed                 // open: log replayed into the memtable
    | RecoveryFlushed          // open: replayed memtable written as a table
    | RecoveryCleared          // open: memtable cleared, log not yet re-created

  /** A `get` between its two looks: what the memtable had for the key. */
  datatype Read = Read(key: Key, found: Option<Entry>)

  /** `gets` are the gets in progress, by reader. `base` and `history` only observe: the
      map when the engine last opened, and the operations begun since, in log order. */
  datatype State = State(wal: Wal, mem: Table, tables: seq<Table>, phase: Phase, gets: map<nat, Read>,
                         base: View, history: seq<Operation>)

  datatype Label =
    | Begin(op: Operation, now: u64) | ApplySync | InsertMem
    | StartFlush | AddTable | ClearMem | TruncateWal | CloseSync
    | Crash(cut: nat)
    | ReplayLog | FlushRecovered | ClearRecovered | ResetWal
    | ReadMem(reader: nat, key: Key)  // a get looks into the memtable
    | ReadTables(reader: nat)         // the get returns, with a look into the tables if it must

  /** A fresh data directory. */
  const INITIAL: State := State(EMPTY, map[], [], Down, map[], map[], [])

  predicate Serving(s: State) {
    || s.phase.Idle? || s.phase.Appended? || s.phase.Logged?
    || s.phase.FlushDue? || s.phase.TableAdded? || s.phase.MemCleared?
  }

  /** Between the moment a table becomes visible and the truncation of the log. */
  predicate FlushWindow(s: State) {
    s.phase.TableAdded? || s.phase.MemCleared?
  }

  predicate Enabled(s: State, l: Label) {
    match l
    case Begin(op, _) => s.phase.Idle? && Storable(op)
    case ApplySync => s.phase.Appended?
    case InsertMem => s.phase.Logged?
    case StartFlush => s.phase.Idle?
    case AddTable => s.phase.FlushDue?
    case ClearMem => s.phase.TableAdded?
    case TruncateWal => s.phase.MemCleared?
    case CloseSync => s.phase.Idle? && s.mem == map[] && s.gets == map[]
    case Crash(cut) => s.wal.synced <= cut <= |s.wal.written|
    case ReplayLog => s.phase.Down?
    case FlushRecovered => s.phase.Replayed?
    case ClearRecovered => s.phase.RecoveryFlushed?
    case ResetWal => s.phase.RecoveryCleared?
    case ReadMem(r, _) => Serving(s) && r !in s.gets
    case ReadTables(r) => Serving(s) && r in s.gets
  }

  /** The operations recovery reads from the log as it is now. */
  function LogOps(w: Wal): seq<Operation> {
    Operations(Records(w))
  }

  /** The operations recovery reads from the log even if only its synced bytes are left. */
  function DurableOps(w: Wal): seq<Operation>
    requires w.synced <= |w.written|
  {
    Operations(Scan(w.written[..w.synced]).entries)
  }

  /** What survives a crash: some prefix of the log, at least the synced part. A prefix
      that survived one crash is not synced thereby; the next crash may shorten it. */
  function Survivor(w: Wal, cut: nat): Wal
    requires cut <= |w.written|
  {
    Wal(w.written[..cut], w.synced, 1, 0)
  }

  function Lookup(t: Table, key: Key): Option<Entry> {
    if key in t then Some(t[key]) else None
  }

  /** What a get in progress returns if it looks into the tables now. */
  function Answer(s: State, reader: nat): Option<Value>
    requires reader in s.gets
  {
    match s.gets[reader].found
    case Some(entry) => EntryValue(entry)
    case None => Search(s.tables, s.gets[reader].key)
  }

  ghost function Next(cfg: Config, s: State, l: Label): State
    requires Enabled(s, l)
  {
    match l
    case Begin(op, now) => s.(wal := Write(s.wal, op, now), phase := Appended(op), history := s.history + [op])
    case ApplySync => s.(wal := SyncIfDue(cfg.sync, s.wal), phase := Logged(s.phase.op))
    case InsertMem =>
      var mem := Insert(s.mem, s.phase.op);
      s.(mem := mem, phase := if TotalSize(mem) >= cfg.limit then FlushDue else Idle)
    case StartFlush => if s.mem == map[] then s else s.(phase := FlushDue)
    case AddTable => s.(tables := [s.mem] + s.tables, phase := TableAdded)
    case ClearMem => s.(mem := map[], phase := MemCleared)
    case TruncateWal => s.(wal := EMPTY, phase := Idle)
    case CloseSync => s.(wal := Sync(s.wal), phase := Down)
    case Crash(cut) => s.(wal := Survivor(s.wal, cut), mem := map[], phase := Down, gets := map[])
    case ReplayLog => s.(mem := Replay(map[], LogOps(s.wal)), phase := Replayed)
    case FlushRecovered =>
      if s.mem == map[] then s.(phase := RecoveryCleared)
      else s.(tables := [s.mem] + s.tables, phase := RecoveryFlushed)
    case ClearRecovered => s.(mem := map[], phase := RecoveryCleared)
    case ResetWal => s.(wal := EMPTY, phase := Idle, base := Contents(s.tables), history := [])
    case ReadMem(r, key) => s.(gets := s.gets[r := Read(key, Lookup(s.mem, key))])
    case ReadTables(r) => s.(gets := s.gets - {r})
  }

  /** The state after a run, if every step of it was possible. */
  ghost function After(cfg: Config, s: State, labels: seq<Label>): Option<State>
    decreases |labels|
  {
    if labels == [] then Some(s) else
      match After(cfg, s, labels[..|labels| - 1])
      case None => None
      case Some(m) =>
        if Enabled(m, labels[|labels| - 1]) then Some(Next(cfg, m, labels[|labels| - 1])) else None
  }

  ghost predicate Reaches(cfg: Config, s: State, labels: seq<Label>, t: State) {
    After(cfg, s, labels) == Some(t)
  }

  lemma RunStarts(cfg: Config, s: State)
    ensures Reaches(cfg, s, [], s)
  {
  }

  lemma NoSteps(cfg: Config, s: State, t: State)
    requires Reaches(cfg, s, [], t)
    ensures s == t
  {
  }

  lemma ReachesStep(cfg: Config, s: State, labels: seq<Label>, m: State, l: Label)
    requires Reaches(cfg, s, labels, m) && Enabled(m, l)
    ensures Reaches(cfg, s, labels + [l], Next(cfg, m, l))
  {
    hide Next, Enabled;
    assert (labels + [l])[..|labels|] == labels;
  }

  lemma LastStep(cfg: Config, s: State, labels: seq<Label>, t: State) returns (m: State)
    requires Reaches(cfg, s, labels, t) && labels != []
    ensures Reaches(cfg, s, labels[..|labels| - 1], m)
    ensures Enabled(m, labels[|labels| - 1]) && t == Next(cfg, m, labels[|labels| - 1])
  {
    m := After(cfg, s, labels[..|labels| - 1]).value;
  }

  lemma {:induction false} RunsCompose(cfg: Config, s: State, a: seq<Label>, m: State, b: seq<Label>, t: State)
    requires Reaches(cfg, s, a, m) && Reaches(cfg, m, b, t)
    ensures Reaches(cfg, s, a + b, t)
    decreases |b|
  {
    hide Next, Enabled, Reaches, After;
    if b == [] {
      NoSteps(cfg, m, t);
      assert a + b == a;
    } else {
      var before, last := b[..|b| - 1], b[|b| - 1];
      var p := LastStep(cfg, m, b, t);
      RunsCompose(cfg, s, a, m, before, p);
      ReachesStep(cfg, s, a + before, p, last);
      assert a + before + [last] == a + b;
    }
  }

  // -- The map behind a state -------------------------------------------------

  /** The map a completed open would serve, were the engine opened on this disk. */
  function Reopened(s: State): View {
    Apply(Contents(s.tables), LogOps(s.wal))
  }

  /** The map clients see, or will see once the engine is open again. */
  function Observed(s: State): View {
    if Serving(s) then Contents([s.mem] + s.tables) else Reopened(s)
  }

  /** Operations in `history` that have reached the memtable; all acknowledged ones have. */
  function Inserted(s: State): int {
    |s.history| - (if s.phase.Appended? || s.phase.Logged? then 1 else 0)
  }

  // -- Invariant --------------------------------------------------------------

  ghost predicate ServingInv(cfg: Config, s: State) {
    var log := LogOps(s.wal);
    var flushed := |s.history| - |log|;
    var pending := s.phase.Appended? || s.phase.Logged?;
    && WellFormed(s.wal)
    && flushed >= 0 && log == s.history[flushed..]
    && s.wal.uncommitted <= MaxUnsynced(cfg.sync) + (if s.phase.Appended? then 1 else 0)
    && (pending ==> log != [] && log[|log| - 1] == s.phase.op)
    && s.mem == (if s.phase.MemCleared? then map[] else Replay(map[], if pending then log[..|log| - 1] else log))
    && Contents(s.tables) == Apply(s.base, if FlushWindow(s) then s.history else s.history[..flushed])
    && (cfg.limit == 0 ==> |log| <= 1 && (s.phase.Idle? ==> log == []))
  }

  /** While down or opening, the tables already hold whatever part of the recovery has
      been done. */
  ghost predicate RecoveryInv(s: State) {
    var ops := LogOps(s.wal);
    && s.wal.synced <= |s.wal.written| && s.gets == map[]
    && (s.phase.Down? || s.phase.RecoveryCleared? ==> s.mem == map[])
    && (s.phase.Replayed? || s.phase.RecoveryFlushed? ==> s.mem == Replay(map[], ops))
    && (s.phase.RecoveryFlushed? || s.phase.RecoveryCleared? ==> Contents(s.tables) == Reopened(s))
  }

  ghost predicate Inv(cfg: Config, s: State) {
    if Serving(s) then ServingInv(cfg, s) else RecoveryInv(s)
  }

  lemma InitialInv(cfg: Config)
    ensures Inv(cfg, INITIAL)
  {
    hide Scan, WellFormed;
  }

  lemma {:induction false} RunInv(cfg: Config, start: State, labels: seq<Label>, s: State)
    requires Inv(cfg, start) && Reaches(cfg, start, labels, s)
    ensures Inv(cfg, s)
    decreases |labels|
  {
    hide Next, Enabled, Inv;
    if labels != [] {
      var m := LastStep(cfg, start, labels, s);
      RunInv(cfg, start, labels[..|labels| - 1], m);
      StepInv(cfg, m, labels[|labels| - 1]);
    }
  }

  /** Every state any run can reach, with crashes anywhere, satisfies the invariant. */
  lemma ReachableInv(cfg: Config, labels: seq<Label>, s: State)
    requires Reaches(cfg, INITIAL, labels, s)
    ensures Inv(cfg, s)
  {
    hide Inv, Reaches;
    InitialInv(cfg);
    RunInv(cfg, INITIAL, labels, s);
  }

  lemma StepInv(cfg: Config, s: State, l: Label)
    requires Inv(cfg, s) && Enabled(s, l)
    ensures Inv(cfg, Next(cfg, s, l))
  {
    hide ServingInv, RecoveryInv, Storable;
    if l.Begin? {
      BeginInv(cfg, s, l.op, l.now);
    } else if l.InsertMem? {
      InsertInv(cfg, s);
    } else if l.AddTable? {
      AddTableInv(cfg, s);
    } else if l.TruncateWal? {
      TruncateInv(cfg, s);
    } else if l.ReadMem? || l.ReadTables? {
      ReadInv(cfg, s, l);
    } else if l.ApplySync? {
      SyncInv(cfg, s);
    } else if l.ClearMem? || l.StartFlush? {
      SimpleServingInv(cfg, s, l);
    } else if l.CloseSync? || l.Crash? {
      StoppedInv(cfg, s, l);
    } else if l.FlushRecovered? {
      FlushRecoveredInv(s);
    } else if l.ResetWal? {
      ResetInv(cfg, s);
    } else {
      SimpleRecoveryInv(cfg, s, l);
    }
  }

  lemma ReadInv(cfg: Config, s: State, l: Label)
    requires ServingInv(cfg, s) && Enabled(s, l) && (l.ReadMem? || l.ReadTables?)
    ensures ServingInv(cfg, Next(cfg, s, l))
  {
    hide WellFormed, Contents, Apply, Replay, LogOps, Storable;
  }

  lemma SimpleServingInv(cfg: Config, s: State, l: Label)
    requires ServingInv(cfg, s) && Enabled(s, l) && (l.ClearMem? || l.StartFlush?)
    ensures ServingInv(cfg, Next(cfg, s, l))
  {
    hide WellFormed, Contents, Apply, Replay, LogOps, Storable;
  }

  lemma SyncInv(cfg: Config, s: State)
    requires ServingInv(cfg, s) && s.phase.Appended?
    ensures ServingInv(cfg, Next(cfg, s, ApplySync))
  {
    hide WellFormed, Contents, Apply, Replay, Records, Storable;
    SyncWellFormed(s.wal);
  }

  lemma StoppedInv(cfg: Config, s: State, l: Label)
    requires Enabled(s, l) && (l.CloseSync? || l.Crash?)
    ensures RecoveryInv(Next(cfg, s, l))
  {
    hide Contents, Apply, Replay, Records, Storable;
  }

  lemma SimpleRecoveryInv(cfg: Config, s: State, l: Label)
    requires RecoveryInv(s) && Enabled(s, l) && (l.ReplayLog? || l.ClearRecovered?)
    ensures RecoveryInv(Next(cfg, s, l))
  {
    hide Contents, Apply, Replay, Records, Storable;
  }

  lemma ResetInv(cfg: Config, s: State)
    requires RecoveryInv(s) && s.phase.RecoveryCleared?
    ensures ServingInv(cfg, Next(cfg, s, ResetWal))
  {
    hide WellFormed, Contents, Records;
    EmptyWellFormed();
  }

  lemma SuffixGrows(h: seq<Operation>, from: nat, log: seq<Operation>, op: Operation)
    requires from <= |h| && log == h[from..]
    ensures (h + [op])[from..] == log + [op] && (h + [op])[..from] == h[..from] && (log + [op])[..|log|] == log
  {
  }

  lemma OperationsAppend(es: seq<WalEntry>, e: WalEntry)
    ensures Operations(es + [e]) == Operations(es) + [e.op]
  {
  }

  lemma BeginInv(cfg: Config, s: State, op: Operation, now: u64)
    requires ServingInv(cfg, s) && s.phase.Idle? && Storable(op)
    ensures ServingInv(cfg, Next(cfg, s, Begin(op, now)))
  {
    hide WellFormed, Contents, Apply, Replay, Storable, Records, Serialize;
    WriteWellFormed(s.wal, op, now);
    OperationsAppend(Records(s.wal), WalEntry(s.wal.nextLsn, op, now));
    var log := LogOps(s.wal);
    SuffixGrows(s.history, |s.history| - |log|, log, op);
  }

  lemma InsertInv(cfg: Config, s: State)
    requires ServingInv(cfg, s) && s.phase.Logged?
    ensures ServingInv(cfg, Next(cfg, s, InsertMem))
  {
    hide WellFormed, Contents, Apply, Records, TotalSize;
    var log := LogOps(s.wal);
    assert Replay(map[], log) == Insert(Replay(map[], log[..|log| - 1]), log[|log| - 1]);
  }

  lemma TruncateInv(cfg: Config, s: State)
    requires ServingInv(cfg, s) && s.phase.MemCleared?
    ensures ServingInv(cfg, Next(cfg, s, TruncateWal))
  {
    hide WellFormed, Contents, Apply, Records;
    EmptyWellFormed();
    assert s.history[|s.history|..] == [] && s.history[..|s.history|] == s.history;
  }

  lemma AddTableInv(cfg: Config, s: State)
    requires ServingInv(cfg, s) && s.phase.FlushDue?
    ensures ServingInv(cfg, Next(cfg, s, AddTable))
  {
    hide WellFormed, Contents, Apply, Replay, Records;
    var log := LogOps(s.wal);
    var flushed := |s.history| - |log|;
    ReplayOver(log, s.tables);
    ApplyConcat(s.base, s.history[..flushed], log);
    assert s.history == s.history[..flushed] + log;
  }

  lemma FlushRecoveredInv(s: State)
    requires RecoveryInv(s) && s.phase.Replayed?
    ensures forall cfg :: RecoveryInv(Next(cfg, s, FlushRecovered))
  {
    hide Contents, Apply, Replay, Records;
    var ops := LogOps(s.wal);
    ReplayOver(ops, s.tables);
    ApplyIdempotent(Contents(s.tables), ops);
    if s.mem == map[] {
      EmptyLayer(s.tables);
    }
  }

  lemma EmptyLayer(tables: seq<Table>)
    ensures Contents([map[]] + tables) == Contents(tables)
  {
    assert ([map[]] + tables)[1..] == tables;
    assert Merge(tables) + map[] == Merge(tables);
  }

  // -- Serving: what clients see ----------------------------------------------

  /** Between crashes, clients see the plain map after every inserted operation. */
  lemma ServingView(cfg: Config, s: State)
    requires Inv(cfg, s) && Serving(s)
    ensures 0 <= Inserted(s) <= |s.history|
    ensures Observed(s) == Apply(s.base, s.history[..Inserted(s)])
  {
    hide WellFormed, Contents, Apply, Replay, Records;
    var log := LogOps(s.wal);
    var flushed := |s.history| - |log|;
    var n := Inserted(s);
    if FlushWindow(s) {
      assert s.history[..n] == s.history;
      if s.phase.TableAdded? {
        ReplayOver(log, s.tables);
        ApplyConcat(s.base, s.history[..flushed], log);
        assert s.history == s.history[..flushed] + log;
        ApplyIdempotent(Apply(s.base, s.history[..flushed]), log);
      } else {
        EmptyLayer(s.tables);
      }
    } else {
      var done := log[..|log| - (|s.history| - n)];
      assert log[..|log|] == log;
      ReplayOver(done, s.tables);
      ApplyConcat(s.base, s.history[..flushed], done);
      assert s.history[..n] == s.history[..flushed] + done;
    }
  }

  /** Not running, with any log and any tables. */
  predicate Stopped(s: State) {
    s.phase.Down? && s.mem == map[] && s.gets == map[] && s.wal.synced <= |s.wal.written|
  }

  // -- Crashes ----------------------------------------------------------------

  /** Operations of `history` whose records are synced or whose effect is in a table. */
  function Synced(s: State): int {
    |s.history| - s.wal.uncommitted
  }

  /** At most as many inserted operations are not synced as the strategy allows. */
  lemma SyncedBound(cfg: Config, s: State)
    requires Inv(cfg, s) && Serving(s)
    ensures 0 <= |s.history| - |LogOps(s.wal)| <= Synced(s) <= |s.history|
    ensures Inserted(s) - Synced(s) <= MaxUnsynced(cfg.sync)
  {
    hide Scan, EncodeAll, AllStorable, Contents, Apply, Replay;
  }

  /** Recovery after a crash reads a prefix of the log; all synced records are in it, and
      they are what a second crash is sure to leave. */
  lemma LogAfterCrash(w: Wal, cut: nat)
    requires WellFormed(w) && w.synced <= cut <= |w.written|
    ensures var n := |LogOps(w)| - w.uncommitted;
      0 <= n && DurableOps(w) == LogOps(w)[..n] && LogOps(w)[..n] <= LogOps(Survivor(w, cut)) <= LogOps(w)
    ensures |LogOps(Survivor(w, cut))| == WholeRecords(Records(w), cut)
  {
    hide Scan, Storable, Serialize, EncodeAll, WholeRecords, WellFormed;
    var j := CrashKeepsPrefix(w, cut);
    var i := CrashKeepsPrefix(w, w.synced);
    CutAtSynced(w);
    SurvivorPrefix(w, cut);
  }

  lemma CrashView(cfg: Config, s: State, cut: nat)
    requires Enabled(s, Crash(cut))
    ensures s.wal.synced <= cut <= |s.wal.written| && Stopped(Next(cfg, s, Crash(cut)))
    ensures Next(cfg, s, Crash(cut)).tables == s.tables && Next(cfg, s, Crash(cut)).wal == Survivor(s.wal, cut)
    ensures Observed(Next(cfg, s, Crash(cut))) == Apply(Contents(s.tables), LogOps(Survivor(s.wal, cut)))
  {
    hide Contents, Apply, LogOps, Storable;
  }

  lemma LogInv(cfg: Config, s: State)
    requires Inv(cfg, s) && Serving(s)
    ensures WellFormed(s.wal) && |LogOps(s.wal)| <= |s.history|
    ensures LogOps(s.wal) == s.history[|s.history| - |LogOps(s.wal)|..]
    ensures var flushed := s.history[..|s.history| - |LogOps(s.wal)|];
      Contents(s.tables) == Apply(s.base, if FlushWindow(s) then s.history else flushed)
  {
    hide WellFormed, Contents, Apply, Replay, Records;
  }

  /** A crash outside the flush window recovers the map after a prefix of history that
      has every synced operation. */
  lemma CrashOutsideWindow(cfg: Config, s: State, cut: nat) returns (n: nat)
    requires Inv(cfg, s) && Serving(s) && !FlushWindow(s) && Enabled(s, Crash(cut))
    ensures Synced(s) <= n <= |s.history| && Inserted(s) - n <= MaxUnsynced(cfg.sync)
    ensures Observed(Next(cfg, s, Crash(cut))) == Apply(s.base, s.history[..n])
  {
    hide Inv, WellFormed, Contents, Apply, LogOps, DurableOps, Next, Enabled, Observed, WholeRecords, Records;
    CrashView(cfg, s, cut);
    var log, kept := LogOps(s.wal), LogOps(Survivor(s.wal, cut));
    var flushed := |s.history| - |log|;
    SyncedBound(cfg, s);
    LogInv(cfg, s);
    LogAfterCrash(s.wal, cut);
    n := flushed + |kept|;
    ApplyConcat(s.base, s.history[..flushed], kept);
    assert s.history[..n] == s.history[..flushed] + kept;
  }

  /** A crash inside the window replays some prefix of the log over the new table: a
      key the replayed part touches gets its value at that prefix of history, every
      other key its value at the flush. No synced record is missing from that prefix. */
  lemma CrashInWindow(cfg: Config, s: State, cut: nat) returns (n: nat)
    requires Inv(cfg, s) && FlushWindow(s) && Enabled(s, Crash(cut))
    ensures var flushed := |s.history| - |LogOps(s.wal)|;
      && 0 <= flushed <= n <= |s.history| && Synced(s) <= n && Inserted(s) - n <= MaxUnsynced(cfg.sync)
      && n == flushed + WholeRecords(Records(s.wal), cut)
      && Observed(Next(cfg, s, Crash(cut))) == Apply(Apply(s.base, s.history), s.history[flushed..n])
      && forall key :: Get(Observed(Next(cfg, s, Crash(cut))), key)
                       == if Touches(s.history[flushed..n], key) then Get(Apply(s.base, s.history[..n]), key)
                          else Get(Apply(s.base, s.history), key)
  {
    hide Inv, WellFormed, Contents, Apply, LogOps, DurableOps, Touches, Get, Next, Enabled, Observed, WholeRecords,
      Records;
    CrashView(cfg, s, cut);
    var log, kept := LogOps(s.wal), LogOps(Survivor(s.wal, cut));
    var flushed := |s.history| - |log|;
    SyncedBound(cfg, s);
    LogInv(cfg, s);
    LogAfterCrash(s.wal, cut);
    n := flushed + |kept|;
    assert kept == s.history[flushed..n];
    forall key ensures Get(Apply(Apply(s.base, s.history), kept), key)
                       == if Touches(kept, key) then Get(Apply(s.base, s.history[..n]), key)
                          else Get(Apply(s.base, s.history), key) {
      ReplayedAt(s.base, s.history, flushed, n, key);
    }
  }

  /** Replaying a stretch of history over the whole of it. */
  lemma ReplayedAt(base: View, h: seq<Operation>, flushed: nat, n: nat, key: Key)
    requires flushed <= n <= |h|
    ensures Get(Apply(Apply(base, h), h[flushed..n]), key)
            == if Touches(h[flushed..n], key) then Get(Apply(base, h[..n]), key) else Get(Apply(base, h), key)
  {
    hide Apply, Touches, Get;
    ApplyConcat(base, h[..flushed], h[flushed..n]);
    assert h[..n] == h[..flushed] + h[flushed..n];
    ApplyAt(Apply(base, h), Apply(base, h[..flushed]), h[flushed..n], key);
  }

  // -- Recovery ---------------------------------------------------------------

  predicate RecoveryLabel(l: Label) {
    l.Crash? || l.ReplayLog? || l.FlushRecovered? || l.ClearRecovered? || l.ResetWal?
  }

  /** Part or all of one open, with crashes and new attempts on the way; a completed
      open ends the run. */
  predicate OpenAttempt(labels: seq<Label>) {
    forall i | 0 <= i < |labels| :: RecoveryLabel(labels[i]) && (labels[i].ResetWal? ==> i == |labels| - 1)
  }

  predicate CompletedOpen(labels: seq<Label>) {
    OpenAttempt(labels) && labels != [] && labels[|labels| - 1].ResetWal?
  }

  lemma StoppedIsInv(s: State)
    requires Stopped(s)
    ensures RecoveryInv(s) && forall cfg :: Inv(cfg, s)
  {
    hide Scan;
  }

  lemma RecoveryStep(cfg: Config, s: State, l: Label)
    requires RecoveryInv(s) && !Serving(s) && Enabled(s, l) && !l.Crash?
    ensures Observed(Next(cfg, s, l)) == Observed(s)
    ensures !Serving(Next(cfg, s, l)) ==> RecoveryInv(Next(cfg, s, l)) && Next(cfg, s, l).wal == s.wal
    ensures Serving(Next(cfg, s, l)) <==> l.ResetWal?
  {
    hide Contents, Apply, Replay, Scan;
    if l.FlushRecovered? {
      FlushRecoveredInv(s);
      ReplayOver(LogOps(s.wal), s.tables);
      ApplyIdempotent(Contents(s.tables), LogOps(s.wal));
      if s.mem == map[] {
        EmptyLayer(s.tables);
      }
    } else if l.ResetWal? {
      EmptyLayer(s.tables);
    }
  }

  /** What a crash leaves of a log, and what the next crash is sure to leave of that. */
  lemma SurvivorPrefix(w: Wal, cut: nat)
    requires w.synced <= cut <= |w.written|
    ensures DurableOps(w) <= LogOps(Survivor(w, cut)) <= LogOps(w)
    ensures DurableOps(Survivor(w, cut)) == DurableOps(w)
  {
    hide Scan;
    ScanPrefix(w.written, cut);
    ScanPrefix(w.written[..cut], w.synced);
    assert w.written[..cut][..w.synced] == w.written[..w.synced];
  }

  lemma DurablePrefix(w: Wal)
    requires w.synced <= |w.written|
    ensures DurableOps(w) <= LogOps(w)
  {
    hide Scan;
    ScanPrefix(w.written, w.synced);
  }

  /** The tables that flushing these prefixes of a log gives. */
  ghost function Replays(log: seq<Operation>, lens: seq<nat>): seq<Table>
    requires Within(lens, 0, |log|)
  {
    seq(|lens|, i requires 0 <= i < |lens| => Replay(map[], log[..lens[i]]))
  }

  predicate Ascending(lens: seq<nat>) {
    forall i, j | 0 <= i < j < |lens| :: lens[i] <= lens[j]
  }

  /** Interrupted recoveries leave nothing behind but tables in front of the original
      ones, each the replay of a prefix of the original log. Newer ones come from shorter
      prefixes; none is shorter than what is left of the log. */
  lemma {:induction false} InterruptedRecovery(cfg: Config, s: State, labels: seq<Label>, t: State)
    returns (lens: seq<nat>)
    requires Stopped(s) && Reaches(cfg, s, labels, t)
    requires forall l <- labels :: RecoveryLabel(l) && !l.ResetWal?
    ensures !Serving(t) && RecoveryInv(t)
    ensures t.wal.synced == s.wal.synced <= |t.wal.written| && t.wal.written <= s.wal.written
    ensures DurableOps(t.wal) == DurableOps(s.wal) <= LogOps(t.wal) <= LogOps(s.wal)
    ensures |lens| <= |labels| && Ascending(lens) && Within(lens, |LogOps(t.wal)|, |LogOps(s.wal)|)
    ensures t.tables == Replays(LogOps(s.wal), lens) + s.tables
    ensures (forall l <- labels :: l.Crash? ==> l.cut == |s.wal.written|) ==> t.wal.written == s.wal.written
    decreases |labels|
  {
    hide Contents, Apply, Replay, Scan, Storable, LogOps, DurableOps, RecoveryInv, Next, Enabled, After;
    if labels == [] {
      lens := [];
      NoSteps(cfg, s, t);
      StoppedIsInv(s);
      DurablePrefix(s.wal);
    } else {
      var before, last := labels[..|labels| - 1], labels[|labels| - 1];
      var m := LastStep(cfg, s, labels, t);
      var earlier := InterruptedRecovery(cfg, s, before, m);
      assert last in labels;
      lens := RecoveryStepTables(cfg, m, last, LogOps(s.wal), earlier, s.tables);
    }
  }

  lemma RecoveryStepTables(cfg: Config, m: State, l: Label, log: seq<Operation>, earlier: seq<nat>, tables: seq<Table>)
    returns (lens: seq<nat>)
    requires RecoveryInv(m) && !Serving(m) && Enabled(m, l) && RecoveryLabel(l) && !l.ResetWal?
    requires DurableOps(m.wal) <= LogOps(m.wal) <= log
    requires Ascending(earlier) && Within(earlier, |LogOps(m.wal)|, |log|) && m.tables == Replays(log, earlier) + tables
    ensures var t := Next(cfg, m, l);
      && !Serving(t) && RecoveryInv(t) && t.wal.synced == m.wal.synced
      && t.wal.written == (if l.Crash? then m.wal.written[..l.cut] else m.wal.written)
      && DurableOps(t.wal) == DurableOps(m.wal) <= LogOps(t.wal) <= LogOps(m.wal)
      && |lens| <= |earlier| + 1 && Ascending(lens) && Within(lens, |LogOps(t.wal)|, |log|)
      && t.tables == Replays(log, lens) + tables
  {
    hide Contents, Apply, Replay, Scan, Storable;
    lens := earlier;
    if l.Crash? {
      SurvivorPrefix(m.wal, l.cut);
    } else {
      RecoveryStep(cfg, m, l);
      if l.FlushRecovered? && m.mem != map[] {
        var n := |LogOps(m.wal)|;
        lens := [n] + earlier;
        assert LogOps(m.wal) == log[..n];
        assert Replays(log, lens) == [m.mem] + Replays(log, earlier);
        assert [m.mem] + (Replays(log, earlier) + tables) == Replays(log, lens) + tables;
      }
    }
  }

  lemma {:induction false} ReplaysOverlay(log: seq<Operation>, lens: seq<nat>, tables: seq<Table>)
    requires Within(lens, 0, |log|)
    ensures Contents(Replays(log, lens) + tables) == Overlaid(Contents(tables), log, lens)
  {
    hide Contents, Apply, Replay;
    if lens == [] {
      assert Replays(log, lens) + tables == tables;
    } else {
      var rest := Replays(log, lens[1..]) + tables;
      ReplaysOverlay(log, lens[1..], tables);
      ReplayOver(log[..lens[0]], rest);
      assert Replays(log, lens) + tables == [Replay(map[], log[..lens[0]])] + rest;
    }
  }

  /** Exactly what an open serves that was interrupted by any number of crashes: the
      tables' map, overlaid with replays of ever shorter prefixes of the log. */
  lemma InterruptedOpen(cfg: Config, s: State, labels: seq<Label>, t: State) returns (lens: seq<nat>)
    requires Stopped(s) && Reaches(cfg, s, labels, t) && OpenAttempt(labels)
    ensures Serving(t) <==> CompletedOpen(labels)
    ensures lens != [] && Ascending(lens) && DurableOps(s.wal) <= LogOps(s.wal)
    ensures Within(lens, |DurableOps(s.wal)|, |LogOps(s.wal)|) && Within(lens, 0, |LogOps(s.wal)|)
    ensures Observed(t) == Overlaid(Contents(s.tables), LogOps(s.wal), lens)
    ensures (forall l <- labels :: l.Crash? ==> l.cut == |s.wal.written|)
            ==> Within(lens, |LogOps(s.wal)|, |LogOps(s.wal)|)
  {
    hide Contents, Apply, Replay, Scan, Storable, LogOps, DurableOps, RecoveryInv, Next, Enabled, After, Overlaid;
    var m, before := t, labels;
    if CompletedOpen(labels) {
      before := labels[..|labels| - 1];
      m := LastStep(cfg, s, labels, t);
    }
    lens := InterruptedRecovery(cfg, s, before, m);
    if CompletedOpen(labels) {
      RecoveryStep(cfg, m, ResetWal);
    }
    var log, n := LogOps(s.wal), |LogOps(m.wal)|;
    ReplaysOverlay(log, lens, s.tables);
    assert LogOps(m.wal) == log[..n];
    OverlayOne(Contents(s.tables), log, lens, n);
    lens := [n] + lens;
    if forall l <- labels :: l.Crash? ==> l.cut == |s.wal.written| {
      assert m.wal.written == s.wal.written;
      SameLog(m.wal, s.wal);
    }
  }

  lemma SameLog(v: Wal, w: Wal)
    requires v.written == w.written
    ensures LogOps(v) == LogOps(w)
  {
  }

  lemma OverlayOne(v: View, log: seq<Operation>, lens: seq<nat>, n: nat)
    requires Within(lens, 0, |log|) && n <= |log|
    ensures Overlaid(v, log, [n] + lens) == Apply(Overlaid(v, log, lens), log[..n])
  {
    hide Apply;
    assert ([n] + lens)[1..] == lens;
  }

  /** For any log bytes and tables, however often the recovery is cut short by a crash
      and started again, the open that completes serves the map that an uninterrupted
      open of the original disk would, provided that the crashes leave the log as it was:
      because it was synced, or because they only kill the process. */
  lemma RecoveryIdempotent(cfg: Config, s: State, labels: seq<Label>, t: State)
    requires Stopped(s) && Reaches(cfg, s, labels, t) && OpenAttempt(labels)
    requires s.wal.synced == |s.wal.written| || (forall l <- labels :: l.Crash? ==> l.cut == |s.wal.written|)
    ensures Observed(t) == Reopened(s)
    ensures Serving(t) <==> CompletedOpen(labels)
  {
    hide Contents, Apply, Scan, Overlaid, OpenAttempt, CompletedOpen, After;
    var lens := InterruptedOpen(cfg, s, labels, t);
    if s.wal.synced == |s.wal.written| {
      assert s.wal.written[..s.wal.synced] == s.wal.written;
    }
    OverlaidWhole(Contents(s.tables), LogOps(s.wal), lens);
  }

  /** Without that proviso, later crashes may shorten the log after a longer prefix of it
      was flushed. Still each key gets its value after some prefix of the log that has
      all synced operations ... */
  lemma RecoveryRecent(cfg: Config, s: State, labels: seq<Label>, t: State, key: Key)
    requires Stopped(s) && Reaches(cfg, s, labels, t) && OpenAttempt(labels)
    ensures Recent(Observed(t), Contents(s.tables), LogOps(s.wal), |DurableOps(s.wal)|, key)
  {
    hide Contents, Apply, Scan, Overlaid, OpenAttempt, CompletedOpen, After, LogOps, DurableOps, Recent, Observed;
    var lens := InterruptedOpen(cfg, s, labels, t);
    OverlaidRecent(Contents(s.tables), LogOps(s.wal), lens, |DurableOps(s.wal)|, key);
  }

  /** ... and with at most one operation not synced, the map is that of the log with
      or without it. */
  lemma RecoveryOneLost(cfg: Config, s: State, labels: seq<Label>, t: State)
    requires Stopped(s) && Reaches(cfg, s, labels, t) && OpenAttempt(labels)
    requires |LogOps(s.wal)| <= |DurableOps(s.wal)| + 1
    ensures Observed(t) == Reopened(s) || Observed(t) == Apply(Contents(s.tables), DurableOps(s.wal))
  {
    hide Contents, Apply, Scan, Overlaid, OpenAttempt, CompletedOpen, After, LogOps, DurableOps;
    var lens := InterruptedOpen(cfg, s, labels, t);
    var v, log, durable := Contents(s.tables), LogOps(s.wal), DurableOps(s.wal);
    if |log| == |durable| {
      OverlaidWhole(v, log, lens);
    } else {
      assert log == durable + [log[|durable|]];
      OverlaidOne(v, durable, log[|durable|], lens);
    }
    ReopenedIs(s);
  }

  lemma ReopenedIs(s: State)
    ensures Reopened(s) == Apply(Contents(s.tables), LogOps(s.wal))
  {
  }

  /** From every disk, an open that is left alone completes and serves what the disk holds. */
  lemma UninterruptedOpen(cfg: Config, s: State) returns (labels: seq<Label>, t: State)
    requires Stopped(s)
    ensures Reaches(cfg, s, labels, t) && CompletedOpen(labels) && Observed(t) == Reopened(s)
    ensures forall l <- labels :: !l.Crash?
  {
    hide Contents, Apply, Replay, Scan, After, Observed;
    RunStarts(cfg, s);
    ReachesStep(cfg, s, [], s, ReplayLog);
    labels, t := [] + [ReplayLog], Next(cfg, s, ReplayLog);
    ReachesStep(cfg, s, labels, t, FlushRecovered);
    labels, t := labels + [FlushRecovered], Next(cfg, t, FlushRecovered);
    if t.phase.RecoveryFlushed? {
      ReachesStep(cfg, s, labels, t, ClearRecovered);
      labels, t := labels + [ClearRecovered], Next(cfg, t, ClearRecovered);
    }
    ReachesStep(cfg, s, labels, t, ResetWal);
    labels, t := labels + [ResetWal], Next(cfg, t, ResetWal);
    RecoveryIdempotent(cfg, s, labels, t);
  }

  /** One that a crash interrupts after its flush, leaving the synced part of the log only,
      may serve that part replayed over all of the log. */
  lemma ShortenedOpen(cfg: Config, s: State) returns (labels: seq<Label>, t: State)
    requires Stopped(s)
    ensures Reaches(cfg, s, labels, t) && CompletedOpen(labels)
    ensures Observed(t) == Apply(Reopened(s), DurableOps(s.wal))
  {
    hide Contents, Apply, Replay, Scan, Reaches, LogOps;
    RunStarts(cfg, s);
    StoppedIsInv(s);
    var m := Next(cfg, s, ReplayLog);
    var f := Next(cfg, m, FlushRecovered);
    ReachesStep(cfg, s, [], s, ReplayLog);
    assert [] + [ReplayLog] == [ReplayLog];
    ReachesStep(cfg, s, [ReplayLog], m, FlushRecovered);
    RecoveryStep(cfg, s, ReplayLog);
    RecoveryStep(cfg, m, FlushRecovered);
    var first := [ReplayLog, FlushRecovered];
    assert [ReplayLog] + [FlushRecovered] == first;
    var crash := Crash(s.wal.synced);
    var d := Next(cfg, f, crash);
    ReachesStep(cfg, s, first, f, crash);
    SurvivorPrefix(f.wal, s.wal.synced);
    assert LogOps(d.wal) == DurableOps(s.wal) by { ShortenedLog(s.wal); }
    var again, u := UninterruptedOpen(cfg, d);
    t := u;
    labels := first + [crash] + again;
    RunsCompose(cfg, s, first + [crash], d, again, t);
  }

  lemma ShortenedLog(w: Wal)
    requires w.synced <= |w.written|
    ensures LogOps(Survivor(w, w.synced)) == DurableOps(w)
  {
  }
}
