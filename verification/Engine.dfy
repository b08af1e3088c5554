/** The storage engine: write path, read path, flush, close and open, each proved to
    take exactly the steps of the engine machine, in order. */
module Engines {
  import opened Bytes
  import opened Errors
  import opened WalEntries
  import opened WalRecovery
  import opened WalWriters
  import opened Layers
  import opened MemTables
  import opened SSTables
  import opened StorageManagers
  import opened EngineMachine
  import opened TableSizes
  import CrashSafety
  import Linearizability

  lemma NothingStored()
    ensures TotalSize(map[]) == 0
  {
  }

  lemma InsertOver(t: Table, tables: seq<Table>, op: Operation)
    ensures Contents([Insert(t, op)] + tables) == ApplyOne(Contents([t] + tables), op)
  {
    hide ApplyOne, Visible;
    assert ([t] + tables)[1..] == tables && ([Insert(t, op)] + tables)[1..] == tables;
    assert Merge(tables) + Insert(t, op) == Insert(Merge(tables) + t, op);
    InsertIsApply(Merge(tables) + t, op);
  }

  /** The steps of a flush that has something to flush, and of a write before its flush. */
  function FlushSteps(flushes: bool): seq<Label> {
    if flushes then [AddTable, ClearMem, TruncateWal] else []
  }

  function WriteSteps(op: Operation, now: u64): seq<Label> {
    [Begin(op, now), ApplySync, InsertMem]
  }

  /** The two looks of a get that nothing interrupts. */
  lemma GetSteps(cfg: Config, s: State, key: Key)
    requires Serving(s) && s.gets == map[]
    ensures Enabled(s, ReadMem(0, key))
    ensures var m := Next(cfg, s, ReadMem(0, key));
      && m == s.(gets := m.gets) && 0 in m.gets && Enabled(m, ReadTables(0)) && Next(cfg, m, ReadTables(0)) == s
      && Answer(m, 0) == if key in s.mem then EntryValue(s.mem[key]) else Search(s.tables, key)
  {
    hide Search, Storable;
    var m := Next(cfg, s, ReadMem(0, key));
    assert m.gets - {0} == map[];
  }

  /** The three steps of a flush. */
  lemma FlushPath(cfg: Config, s: State)
    requires s.phase.FlushDue?
    ensures Enabled(s, AddTable)
    ensures var a := Next(cfg, s, AddTable);
      && a == s.(tables := [s.mem] + s.tables, phase := TableAdded) && Enabled(a, ClearMem)
      && var c := Next(cfg, a, ClearMem);
      && c == a.(mem := map[], phase := MemCleared) && Enabled(c, TruncateWal)
      && Next(cfg, c, TruncateWal) == c.(wal := EMPTY, phase := Idle)
  {
    hide Storable;
  }

  class Engine {
    const config: Config
    const wal: WalWriter
    const memtable: MemTable
    const storage: StorageManager

    // The run of the engine machine that this object has performed: from `start`,
    // the disk it was opened on, through `labels`, to `at`.
    ghost const start: State
    ghost var labels: seq<Label>
    ghost var at: State

    /** The components are intact and agree with the recorded machine state. */
    ghost predicate Tracks()
      reads this, wal, memtable, storage
    {
      && memtable.Valid() && storage.Valid() && wal.strategy == config.sync
      && Matches(wal.State(), memtable.data, storage.Tables(), at)
      && Reaches(config, start, labels, at)
      && Stopped(start)
      && Bounded(memtable.data) && config.limit <= MAX_SIZE
    }

    static ghost predicate Matches(w: Wal, mem: Table, tables: seq<Table>, s: State) {
      s.wal == w && s.mem == mem && s.tables == tables
    }

    /** No call in progress; the memtable is empty or below its limit. */
    ghost predicate Valid()
      reads this, wal, memtable, storage
    {
      && Tracks() && at.phase.Idle? && at.gets == map[]
      && (memtable.data == map[] || memtable.size < config.limit)
    }

    ghost function View(): Layers.View
      requires storage.Valid()
      reads memtable, storage
    {
      Contents([memtable.data] + storage.Tables())
    }

    /** Identifiers left for at least one more table. */
    ghost predicate HasIds()
      reads storage
    {
      0 < storage.nextSstableId < U64 - 1
    }

    constructor (config: Config, wal: WalWriter, memtable: MemTable, storage: StorageManager,
                 ghost start: State, ghost labels: seq<Label>, ghost at: State)
      ensures this.config == config && this.wal == wal && this.memtable == memtable && this.storage == storage
      ensures this.start == start && this.labels == labels && this.at == at
    {
      this.config, this.wal, this.memtable, this.storage := config, wal, memtable, storage;
      this.start, this.labels, this.at := start, labels, at;
    }

    /** Record that the components have just taken the step l. */
    ghost method Took(l: Label)
      requires Reaches(config, start, labels, at) && Enabled(at, l) && storage.Valid()
      requires Matches(wal.State(), memtable.data, storage.Tables(), Next(config, at, l))
      modifies this`labels, this`at
      ensures at == Next(config, old(at), l) && labels == old(labels) + [l]
      ensures Reaches(config, start, labels, at) && Matches(wal.State(), memtable.data, storage.Tables(), at)
    {
      hide Next, Enabled, Reaches;
      ReachesStep(config, start, labels, at, l);
      at := Next(config, at, l);
      labels := labels + [l];
    }

    /** A get with nothing else going on: the machine's two looks, one after the other. */
    method Get(key: Key) returns (r: Result<Option<Value>>)
      requires Valid()
      modifies this`labels, this`at, storage.sstables
      ensures Valid() && r == Ok(Layers.Get(View(), key)) && View() == old(View())
      ensures labels == old(labels) + [ReadMem(0, key), ReadTables(0)] && at == old(at)
    {
      hide StorageManager.Valid, TablesOf, Holds, Serve, Contents, Layers.Get, Search, Bounded, Reaches, TotalSize,
        Storable, Next, Enabled, Answer, StorageManager.Decides, TableGet;
      GetSteps(config, at, key);
      Linearizability.SearchView(memtable.data, storage.Tables(), key);
      var entry := memtable.Get(key);
      Took(ReadMem(0, key));
      match entry {
        case Some(Live(value)) => r := Ok(Some(value));
        case Some(Tombstone) => r := Ok(None);
        case None => r := storage.Get(key);
      }
      assert r == Ok(Answer(at, 0));
      Took(ReadTables(0));
    }

    method Put(key: Key, value: Value, now: u64)
      requires Valid() && Storable(Operation.Put(key, value)) && HasIds()
      modifies this, wal, memtable, storage
      ensures Valid() && View() == old(View())[key := value]
      ensures at.history == old(at.history) + [Operation.Put(key, value)] && at.base == old(at.base)
      ensures labels == old(labels) + WriteSteps(Operation.Put(key, value), now)
                        + FlushSteps(TotalSize(Insert(old(memtable.data), Operation.Put(key, value))) >= config.limit)
    {
      hide StorageManager.Valid, TablesOf, Holds, Serve, Storable, Contents, Next, Enabled, Insert, Bounded, Reaches;
      var op := Operation.Put(key, value);
      Log(op, now);
      ghost var before := memtable.data;
      assert ApplyOne(View(), op) == View()[key := value];
      var newSize := memtable.Put(key, value);
      Inserted(op, before);
      if newSize >= config.limit {
        FlushInternal();
      }
    }

    method Delete(key: Key, now: u64)
      requires Valid() && Storable(Operation.Delete(key)) && HasIds()
      modifies this, wal, memtable, storage
      ensures Valid() && View() == old(View()) - {key}
      ensures at.history == old(at.history) + [Operation.Delete(key)] && at.base == old(at.base)
      ensures labels == old(labels) + WriteSteps(Operation.Delete(key), now)
                        + FlushSteps(TotalSize(Insert(old(memtable.data), Operation.Delete(key))) >= config.limit)
    {
      hide StorageManager.Valid, TablesOf, Holds, Serve, Storable, Contents, Next, Enabled, Insert, Bounded, Reaches;
      var op := Operation.Delete(key);
      Log(op, now);
      ghost var before := memtable.data;
      assert ApplyOne(View(), op) == View() - {key};
      var newSize := memtable.Delete(key);
      Inserted(op, before);
      if newSize >= config.limit {
        FlushInternal();
      }
    }

    /** `append`, in its two halves: the record is written, then the strategy decides
        whether to sync. */
    method Log(op: Operation, now: u64)
      requires Valid() && Storable(op)
      modifies this, wal
      ensures Tracks() && at.phase == Logged(op)
      ensures at.history == old(at.history) + [op] && at.base == old(at.base) && at.gets == old(at.gets)
      ensures labels == old(labels) + [Begin(op, now)] + [ApplySync]
    {
      hide StorageManager.Valid, TablesOf, Holds, Serve, Storable, Write, SyncIfDue, Bounded, Reaches;
      var lsn := wal.WriteRecord(op, now);
      Took(Begin(op, now));
      wal.ApplyStrategy();
      Took(ApplySync);
    }

    /** The memtable has just taken the logged operation. */
    ghost method Inserted(op: Operation, before: Table)
      requires memtable.Valid() && storage.Valid() && wal.strategy == config.sync && config.limit <= MAX_SIZE
      requires Stopped(start)
      requires Reaches(config, start, labels, at) && at.phase == Logged(op) && Storable(op)
      requires Matches(wal.State(), before, storage.Tables(), at) && Bounded(before)
      requires before == map[] || TotalSize(before) < config.limit
      requires memtable.data == Insert(before, op)
      modifies this`labels, this`at
      ensures Tracks() && memtable.data != map[] && TotalSize(memtable.data) < 2 * MAX_SIZE
      ensures at.phase == if memtable.size >= config.limit then FlushDue else Idle
      ensures at.history == old(at.history) && at.base == old(at.base) && at.gets == old(at.gets)
      ensures labels == old(labels) + [InsertMem]
      ensures View() == ApplyOne(Contents([before] + storage.Tables()), op)
    {
      hide StorageManager.Valid, TablesOf, Holds, Serve, Storable, Insert, Bounded, Reaches, TotalSize, Contents,
        ApplyOne;
      InsertBounded(before, op);
      StorableFits(op);
      assert before == map[] ==> TotalSize(before) == 0 by { NothingStored(); }
      InsertOver(before, storage.Tables(), op);
      Took(InsertMem);
    }

    method Flush()
      requires Valid() && HasIds()
      modifies this, wal, memtable, storage
      ensures Valid() && View() == old(View()) && memtable.data == map[]
      ensures at.history == old(at.history) && at.base == old(at.base)
      ensures old(memtable.data) != map[] ==> wal.State() == EMPTY
      ensures labels == old(labels) + [StartFlush] + FlushSteps(old(memtable.data) != map[])
    {
      hide StorageManager.Valid, TablesOf, Holds, Serve, Storable, Contents, Bounded, Reaches, TotalSize;
      assert memtable.data == map[] ==> TotalSize(memtable.data) == 0 by { NothingStored(); }
      Took(StartFlush);
      FlushInternal();
    }

    /** Table, then memtable, then log: in this order. */
    method FlushInternal()
      requires Tracks() && HasIds() && TotalSize(memtable.data) < 2 * MAX_SIZE
      requires at.phase == (if memtable.data == map[] then Idle else FlushDue) && at.gets == map[]
      modifies this, wal, memtable, storage
      ensures Valid() && View() == old(View()) && memtable.data == map[]
      ensures at.history == old(at.history) && at.base == old(at.base)
      ensures old(memtable.data) == map[] ==> wal.State() == old(wal.State())
      ensures old(memtable.data) != map[] ==> wal.State() == EMPTY
      ensures labels == old(labels) + FlushSteps(old(memtable.data) != map[])
    {
      hide StorageManager.Valid, TablesOf, Holds, Serve, Storable, Contents, Bounded, Reaches, TotalSize, TableFits,
        Next, Enabled;
      var empty := memtable.IsEmpty();
      if empty {
        return;
      }
      FlushPath(config, at);
      SmallTableFits(memtable.data);
      var flushed := storage.Flush(memtable);
      Took(AddTable);
      memtable.Clear();
      Took(ClearMem);
      wal.Truncate();
      Took(TruncateWal);
      NothingBounded();
      EmptyLayer(storage.Tables());
    }

    /** After a close, the disk alone holds the whole map. */
    method Close()
      requires Valid() && HasIds()
      modifies this, wal, memtable, storage
      ensures Tracks() && at.phase.Down? && Reopened(at) == old(View())
      ensures memtable.data == map[] && wal.synced == |wal.file| && wal.uncommittedCount == 0
      ensures labels == old(labels) + (if old(memtable.data) == map[] then [] else [StartFlush] + FlushSteps(true))
                        + [CloseSync]
    {
      hide StorageManager.Valid, TablesOf, Holds, Serve, Storable, Contents, Bounded, Reaches, TotalSize, Scan, Apply;
      var empty := memtable.IsEmpty();
      if !empty {
        Flush();
      }
      MachineInv();
      CrashSafety.CloseStep(config, at);
      wal.ForceSync();
      Took(CloseSync);
    }

    lemma MachineInv()
      requires Tracks()
      ensures Inv(config, at)
    {
      hide ServingInv, Reaches, RecoveryInv;
      StoppedIsInv(start);
      RunInv(config, start, labels, at);
    }

    /** When appends are synced, a crash at any moment between calls loses nothing: the
        disk it leaves reopens to the map clients saw. */
    lemma Durable(cut: nat)
      requires Valid() && MaxUnsynced(config.sync) == 0 && Enabled(at, Crash(cut))
      ensures Reopened(Next(config, at, Crash(cut))) == View()
    {
      hide Inv, Reaches, Apply, Contents, StorageManager.Valid, TablesOf, Holds, Serve, Bounded, TotalSize, LogOps;
      MachineInv();
      CrashSafety.SyncedCrash(config, at, cut);
      CrashView(config, at, cut);
      CrashSafety.DownMap(Next(config, at, Crash(cut)), View(), None);
    }

    /** Every theorem about runs that start settled holds of what this engine does next. */
    lemma BetweenCalls()
      requires Valid()
      ensures CrashSafety.Settled(config, at) && Observed(at) == View()
    {
      hide Inv, Contents, StorageManager.Valid, TablesOf, Holds, Serve, Bounded, TotalSize, Reaches;
      MachineInv();
      ViewIsObserved();
    }

    lemma ViewIsObserved()
      requires Valid()
      ensures View() == Observed(at)
    {
      hide Contents, StorageManager.Valid, TablesOf, Holds, Serve, Bounded, TotalSize, Reaches;
    }

    /** What clients see is the plain map after all operations since the engine opened. */
    lemma ViewIsHistory()
      requires Valid()
      ensures View() == Apply(at.base, at.history)
    {
      hide Inv, Reaches, Apply, Contents, StorageManager.Valid, TablesOf, Holds, Serve, Bounded, TotalSize;
      MachineInv();
      ServingView(config, at);
      assert at.history[..|at.history|] == at.history;
    }
  }

  /** The replay loop of `open`. */
  method ReplayInto(memtable: MemTable, entries: seq<WalEntry>)
    requires memtable.Valid() && memtable.data == map[]
    modifies memtable
    ensures memtable.Valid() && memtable.data == Replay(map[], Operations(entries))
  {
    hide Insert;
    ghost var ops := Operations(entries);
    for i := 0 to |entries|
      invariant memtable.Valid() && memtable.data == Replay(map[], ops[..i])
    {
      assert ops[..i + 1][..i] == ops[..i];
      match entries[i].op
      case Put(key, value) => var _ := memtable.Put(key, value);
      case Delete(key) => var _ := memtable.Delete(key);
    }
    assert ops[..|ops|] == ops;
  }

  /** The disk an engine is opened on; the first `synced` bytes of the log are durable. */
  ghost function DiskState(dir: Directory, ids: seq<nat>, file: Bytes, synced: nat, base: View,
                           history: seq<Operation>): State
    requires Holds(dir, ids)
  {
    State(Wal(file, synced, 1, 0), map[], TablesOf(dir, ids), Down, map[], base, history)
  }

  predicate FullRecovery(labels: seq<Label>) {
    labels == [ReplayLog, FlushRecovered] || labels == [ReplayLog, FlushRecovered, ClearRecovered]
  }

  /** The body of `open` up to the re-creation of the log: recover, replay, flush,
      clear, in this order. */
  method RecoverInto(config: Config, storage: StorageManager, memtable: MemTable, file: Bytes, ghost start: State)
    returns (ghost labels: seq<Label>, ghost at: State)
    requires storage.Valid() && memtable.Valid() && 0 < storage.nextSstableId < U64 - 1 && |file| <= MAX_SIZE
    requires Stopped(start) && start.wal.written == file
    requires Engine.Matches(start.wal, memtable.data, storage.Tables(), start)
    modifies storage, memtable
    ensures storage.Valid() && memtable.Valid() && FullRecovery(labels) && Reaches(config, start, labels, at)
    ensures at.phase.RecoveryCleared? && Engine.Matches(at.wal, memtable.data, storage.Tables(), at)
    ensures memtable.data == map[]
  {
    hide Holds, TablesOf, Serve, Scan, Contents, Replay, TableFits, StorageManager.Valid, Reaches, TotalSize, Storable;
    labels, at := [], start;
    RunStarts(config, start);

    var entries, result := Recover(file);
    ReplayInto(memtable, entries);
    ReachesStep(config, start, labels, at, ReplayLog);
    labels, at := labels + [ReplayLog], Next(config, at, ReplayLog);
    assert Engine.Matches(at.wal, memtable.data, storage.Tables(), at);

    ReachesStep(config, start, labels, at, FlushRecovered);
    labels, at := labels + [FlushRecovered], Next(config, at, FlushRecovered);
    var empty := memtable.IsEmpty();
    if !empty {
      RecoveredTableFits(file);
      var flushed := storage.Flush(memtable);
      assert Engine.Matches(at.wal, memtable.data, storage.Tables(), at);
      memtable.Clear();
      ReachesStep(config, start, labels, at, ClearRecovered);
      labels, at := labels + [ClearRecovered], Next(config, at, ClearRecovered);
    }
  }

  /** Opening any log over any directory of tables: the engine serves the log applied
      to what the tables show. */
  method OpenEngine(config: Config, dir: Directory, file: Bytes,
                    ghost ids: seq<nat>, ghost synced: nat, ghost base: View, ghost history: seq<Operation>)
    returns (e: Engine)
    requires Holds(dir, ids) && 0 < NextId(ids) < U64 - 1 && synced <= |file|
    requires config.limit <= MAX_SIZE && |file| <= MAX_SIZE
    ensures fresh(e) && fresh(e.wal) && fresh(e.memtable) && fresh(e.storage)
    ensures e.Valid() && e.config == config && e.memtable.data == map[] && e.wal.State() == EMPTY
    ensures e.start == DiskState(dir, ids, file, synced, base, history) && e.View() == Reopened(e.start)
    ensures e.at.base == e.View() && e.at.history == []
  {
    hide Holds, TablesOf, Serve, Contents, Reopened, StorageManager.Valid, NextId, Reaches;
    var found := OpenStorage(dir);
    match found
    case Err(_) => assert false;
    case Ok(storage) =>
      OpenedTables(storage, ids);
      var memtable := new MemTable();
      ghost var start := DiskState(dir, ids, file, synced, base, history);
      ghost var labels, at := RecoverInto(config, storage, memtable, file, start);
      var wal := new WalWriter(config.sync);
      RecoveryEnds(config, start, labels, at);
      labels, at := labels + [ResetWal], Next(config, at, ResetWal);
      e := new Engine(config, wal, memtable, storage, start, labels, at);
      NothingBounded();
  }

  lemma RecoveryEnds(cfg: Config, start: State, labels: seq<Label>, at: State)
    requires Stopped(start)
    requires FullRecovery(labels) && Reaches(cfg, start, labels, at) && at.phase.RecoveryCleared? && at.mem == map[]
    ensures Reaches(cfg, start, labels + [ResetWal], Next(cfg, at, ResetWal)) && at.gets == map[]
    ensures Contents([at.mem] + at.tables) == Reopened(start) == Next(cfg, at, ResetWal).base
  {
    hide Contents, Reopened, Reaches, RecoveryInv, ServingInv;
    ReachesStep(cfg, start, labels, at, ResetWal);
    RecoveryIdempotent(cfg, start, labels + [ResetWal], Next(cfg, at, ResetWal));
    EmptyLayer(at.tables);
    StoppedIsInv(start);
    RunInv(cfg, start, labels, at);
    NoGets(at);
  }

  lemma CrashEnabled(s: State, cut: nat)
    requires s.wal.synced <= cut <= |s.wal.written|
    ensures Enabled(s, Crash(cut))
  {
    hide Storable;
  }

  lemma CrashedDisk(cfg: Config, s: State, file: Bytes, d: State)
    requires file <= s.wal.written && Enabled(s, Crash(|file|))
    requires d == State(Wal(file, s.wal.synced, 1, 0), map[], s.tables, Down, map[], s.base, s.history)
    ensures d == Next(cfg, s, Crash(|file|)) && Observed(d) == Reopened(d)
  {
    hide Storable, Reopened;
    assert s.wal.written[..|file|] == file;
  }

  lemma NoGets(s: State)
    requires RecoveryInv(s)
    ensures s.gets == map[]
  {
    hide Replay, LogOps, Contents;
  }

  lemma OpenedTables(storage: StorageManager, ids: seq<nat>)
    requires storage.Valid() && storage.ids == ids
    ensures storage.nextSstableId == NextId(ids) && Holds(storage.dir, ids)
    ensures storage.Tables() == TablesOf(storage.dir, ids)
  {
    hide Holds, TablesOf, Serve;
  }

  // -- Crash and reopen -------------------------------------------------------

  /** A crash at any moment of any run, also in the middle of a call, and an open of the
      files it leaves. If appends are synced, the new engine has the old one's map, or that
      map with the operation in flight. Otherwise it has lost unsynced operations only:
      outside the flush window it has a prefix of history, inside it every key has its
      latest value or its value at that prefix. */
  method Reopen(config: Config, dir: Directory, file: Bytes, ghost ids: seq<nat>, ghost cfg: Config,
                ghost start: State, ghost labels: seq<Label>, ghost s: State)
    returns (f: Engine, ghost n: nat)
    requires Inv(cfg, start) && Reaches(cfg, start, labels, s) && Serving(s)
    requires s.wal.synced <= |file| && file <= s.wal.written && Holds(dir, ids) && TablesOf(dir, ids) == s.tables
    requires 0 < NextId(ids) < U64 - 1 && config.limit <= MAX_SIZE && |file| <= MAX_SIZE
    ensures fresh(f) && fresh(f.wal) && fresh(f.memtable) && fresh(f.storage) && f.Valid() && f.config == config
    ensures Enabled(s, Crash(|file|)) && f.start == Next(cfg, s, Crash(|file|))
    ensures MaxUnsynced(cfg.sync) == 0 ==>
              f.View() == Observed(s)
              || (CrashSafety.Pending(s) && f.View() == ApplyOne(Observed(s), s.phase.op))
    ensures Synced(s) <= n <= |s.history| && Inserted(s) - n <= MaxUnsynced(cfg.sync)
    ensures !FlushWindow(s) ==> f.View() == Apply(s.base, s.history[..n])
    ensures forall key :: Layers.Get(f.View(), key) == Layers.Get(Apply(s.base, s.history), key)
                          || Layers.Get(f.View(), key) == Layers.Get(Apply(s.base, s.history[..n]), key)
  {
    hide Inv, Reaches, Holds, TablesOf, Contents, Apply, Reopened, Next, Observed, Layers.Get, NextId, Serving,
      StorageManager.Valid, Bounded, TotalSize, CrashSafety.Explained, Enabled;
    f := OpenEngine(config, dir, file, ids, s.wal.synced, s.base, s.history);
    ghost var cut := |file|;
    CrashEnabled(s, cut);
    CrashedDisk(cfg, s, file, f.start);
    RunInv(cfg, start, labels, s);
    n := CrashSafety.CrashMap(cfg, s, cut);
  }

  /** The same for the files of an engine between calls. Reopened with the same settings,
      the old engine's steps, the crash and the new engine's steps are one run, to which the
      theorems about whole runs apply. */
  method CrashAndReopen(e: Engine, config: Config, cut: nat) returns (f: Engine, ghost n: nat)
    requires e.Valid() && e.HasIds() && e.wal.synced <= cut <= |e.wal.file|
    requires config.limit <= MAX_SIZE && |e.wal.file| <= MAX_SIZE
    ensures fresh(f) && fresh(f.wal) && fresh(f.memtable) && fresh(f.storage) && f.Valid() && f.config == config
    ensures MaxUnsynced(e.config.sync) == 0 ==> f.View() == e.View()
    ensures |e.at.history| - e.wal.uncommittedCount <= n <= |e.at.history| <= n + MaxUnsynced(e.config.sync)
    ensures f.View() == Apply(e.at.base, e.at.history[..n])
    ensures config == e.config ==> Reaches(config, e.start, e.labels + [Crash(cut)] + f.labels, f.at)
  {
    hide Inv, Reaches, Holds, TablesOf, Contents, Apply, Observed, Layers.Get, NextId, StorageManager.Valid, Bounded,
      TotalSize, Next, Enabled;
    OpenedTables(e.storage, e.storage.ids);
    StoppedIsInv(e.start);
    f, n := Reopen(config, e.storage.dir, e.wal.file[..cut], e.storage.ids, e.config, e.start, e.labels, e.at);
    e.ViewIsObserved();
    ReachesStep(e.config, e.start, e.labels, e.at, Crash(cut));
    if config == e.config {
      RunsCompose(config, e.start, e.labels + [Crash(cut)], f.start, f.labels, f.at);
    }
  }
}
