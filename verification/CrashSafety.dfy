/** What survives crashes, over whole runs. */
module CrashSafety {
  import opened Bytes
  import opened Errors
  import opened WalEntries
  import opened WalRecovery
  import opened WalWriters
  import opened Layers
  import opened MemTables
  import opened EngineMachine

  // -- Steps refine a plain map -----------------------------------------------

  /** Without a crash, only the memtable insertion changes what clients see, and it
      applies exactly the operation in progress. */
  lemma NonCrashStep(cfg: Config, s: State, l: Label)
    requires Inv(cfg, s) && Enabled(s, l) && !l.Crash?
    ensures Observed(Next(cfg, s, l)) == if l.InsertMem? then ApplyOne(Observed(s), s.phase.op) else Observed(s)
  {
    hide Inv, Observed, Apply;
    var t := Next(cfg, s, l);
    StepInv(cfg, s, l);
    if !Serving(s) {
      NotServingInv(cfg, s);
      RecoveryStep(cfg, s, l);
    } else if l.CloseSync? {
      CloseStep(cfg, s);
    } else {
      ServingView(cfg, s);
      ServingView(cfg, t);
      if l.InsertMem? {
        InsertExtends(cfg, s);
      } else {
        assert t.history[..Inserted(t)] == s.history[..Inserted(s)];
      }
    }
  }

  lemma NotServingInv(cfg: Config, s: State)
    requires Inv(cfg, s) && !Serving(s)
    ensures RecoveryInv(s)
  {
    hide RecoveryInv;
  }

  lemma CloseStep(cfg: Config, s: State)
    requires Inv(cfg, s) && Enabled(s, CloseSync)
    ensures Observed(Next(cfg, s, CloseSync)) == Observed(s)
  {
    hide WellFormed, Contents, Apply, Replay, Scan;
    ReplayOver(LogOps(s.wal), s.tables);
  }

  lemma InsertExtends(cfg: Config, s: State)
    requires Inv(cfg, s) && s.phase.Logged?
    ensures 0 <= Inserted(s) < |s.history|
    ensures Apply(s.base, s.history[..|s.history|]) == ApplyOne(Apply(s.base, s.history[..Inserted(s)]), s.phase.op)
  {
    hide WellFormed, Contents, Replay, Records;
    LastIsPending(cfg, s);
    assert s.history[..|s.history|] == s.history;
  }

  lemma LastIsPending(cfg: Config, s: State)
    requires Inv(cfg, s) && (s.phase.Appended? || s.phase.Logged?)
    ensures s.history != [] && s.history[|s.history| - 1] == s.phase.op
  {
    hide WellFormed, Contents, Replay, Records, Apply;
  }

  // -- Every append synced, or no crash ----------------------------------------

  predicate Pending(s: State) {
    s.phase.Appended? || s.phase.Logged?
  }

  /** The operation begun but without effect so far. After a crash it stays undecided
      until an open completes. */
  function StepInFlight(f: Option<Operation>, l: Label): Option<Operation> {
    match l
    case Begin(op, _) => Some(op)
    case InsertMem => None
    case ResetWal => None
    case _ => f
  }

  function InFlight(labels: seq<Label>): Option<Operation> {
    if labels == [] then None else StepInFlight(InFlight(labels[..|labels| - 1]), labels[|labels| - 1])
  }

  /** The operation that a step makes visible: an insertion the one in flight, a completed
      open possibly the one in flight, any other step none. */
  predicate Takes(l: Label, f: Option<Operation>, taken: Option<Operation>) {
    match l
    case InsertMem => taken.Some? && taken == f
    case ResetWal => taken.None? || taken == f
    case _ => taken.None?
  }

  predicate Explains(labels: seq<Label>, taken: seq<Option<Operation>>) {
    |taken| == |labels| && forall i | 0 <= i < |labels| :: Takes(labels[i], InFlight(labels[..i]), taken[i])
  }

  function Taken(taken: seq<Option<Operation>>): seq<Operation> {
    if taken == [] then [] else
      Taken(taken[..|taken| - 1]) + (match taken[|taken| - 1] case None => [] case Some(op) => [op])
  }

  function ApplyTaken(v: View, taken: Option<Operation>): View {
    match taken
    case None => v
    case Some(op) => ApplyOne(v, op)
  }

  /** The state stands for the map v, with the operation in flight not counted. While the
      engine is down, recovering from all of the log or from its synced part alone gives v,
      or v with the operation in flight. */
  ghost predicate Explained(s: State, v: View, f: Option<Operation>) {
    if Serving(s) then Observed(s) == v && f == (if Pending(s) then Some(s.phase.op) else None)
    else s.wal.synced <= |s.wal.written| && Undecided(Contents(s.tables), DurableOps(s.wal), LogOps(s.wal), v, f)
  }

  ghost predicate Undecided(tables: View, durable: seq<Operation>, log: seq<Operation>, v: View,
                            f: Option<Operation>) {
    match f
    case None => log == durable && Apply(tables, durable) == v
    case Some(op) =>
      && (log == durable || log == durable + [op])
      && (Apply(tables, durable) == v || Apply(tables, durable) == ApplyOne(v, op))
      && Apply(tables, durable + [op]) == ApplyOne(v, op)
  }

  lemma ApplyOneTwice(v: View, op: Operation)
    ensures ApplyOne(ApplyOne(v, op), op) == ApplyOne(v, op)
  {
  }

  lemma ApplyLast(v: View, ops: seq<Operation>, op: Operation)
    ensures Apply(v, ops + [op]) == ApplyOne(Apply(v, ops), op)
  {
    assert (ops + [op])[..|ops|] == ops;
  }

  /** What the log gives is v or v with the operation in flight ... */
  lemma UndecidedMap(tables: View, durable: seq<Operation>, log: seq<Operation>, v: View, f: Option<Operation>)
    requires Undecided(tables, durable, log, v, f)
    ensures Apply(tables, log) == v || (f.Some? && Apply(tables, log) == ApplyOne(v, f.value))
  {
    hide Apply, ApplyOne;
  }

  /** ... and stays so when the log is flushed into a table. */
  lemma UndecidedFlush(tables: View, durable: seq<Operation>, log: seq<Operation>, v: View, f: Option<Operation>)
    requires Undecided(tables, durable, log, v, f)
    ensures Undecided(Apply(tables, log), durable, log, v, f)
  {
    hide Apply, ApplyOne, Touches;
    var after := Apply(tables, log);
    ApplyIdempotent(tables, log);
    if f.Some? {
      ApplyOneTwice(v, f.value);
      ApplyLast(after, durable, f.value);
      OneLost(tables, durable, f.value);
    }
  }

  lemma UndecidedCrash(tables: View, durable: seq<Operation>, log: seq<Operation>, kept: seq<Operation>, v: View,
                       f: Option<Operation>)
    requires Undecided(tables, durable, log, v, f) && durable <= kept <= log
    ensures Undecided(tables, durable, kept, v, f)
  {
    hide Apply, ApplyOne;
  }

  /** A log that is synced as a whole, over tables that may have all of it already. */
  lemma UndecidedWhole(base: View, h: seq<Operation>, flushed: nat, tables: View)
    requires flushed <= |h| && (tables == Apply(base, h[..flushed]) || tables == Apply(base, h))
    ensures Undecided(tables, h[flushed..], h[flushed..], Apply(base, h), None)
    ensures h != [] ==> Undecided(tables, h[flushed..], h[flushed..], Apply(base, h[..|h| - 1]), Some(h[|h| - 1]))
  {
    hide Apply, ApplyOne;
    WholeLog(base, h, flushed);
    if h != [] {
      var before, op := h[..|h| - 1], h[|h| - 1];
      assert h == before + [op];
      ApplyLast(base, before, op);
      ApplyLast(tables, h[flushed..], op);
      ApplyOneTwice(Apply(base, before), op);
    }
  }

  /** A log of which all but the last record is synced. */
  lemma UndecidedLast(base: View, h: seq<Operation>, flushed: nat, kept: seq<Operation>)
    requires flushed < |h| && h[flushed..|h| - 1] <= kept <= h[flushed..]
    ensures Undecided(Apply(base, h[..flushed]), h[flushed..|h| - 1], kept, Apply(base, h[..|h| - 1]), Some(h[|h| - 1]))
  {
    hide Apply, ApplyOne;
    var before, op := h[flushed..|h| - 1], h[|h| - 1];
    assert h[flushed..] == before + [op];
    assert h[..|h| - 1] == h[..flushed] + before;
    ApplyConcat(base, h[..flushed], before);
    ApplyLast(Apply(base, h[..flushed]), before, op);
    assert |kept| == |before| || |kept| == |before| + 1;
  }

  /** When every append is synced before it returns, a crash loses nothing that was
      inserted; only the one operation in flight is undecided. */
  lemma SyncedCrash(cfg: Config, s: State, cut: nat)
    requires MaxUnsynced(cfg.sync) == 0
    requires Inv(cfg, s) && Serving(s) && Enabled(s, Crash(cut))
    ensures Explained(Next(cfg, s, Crash(cut)), Observed(s), if Pending(s) then Some(s.phase.op) else None)
  {
    hide Inv, Observed, Next, Enabled, Apply, LogOps, DurableOps, WellFormed, Contents, Records, WholeRecords,
      Undecided;
    CrashView(cfg, s, cut);
    LogInv(cfg, s);
    LogAfterCrash(s.wal, cut);
    SurvivorPrefix(s.wal, cut);
    ServingView(cfg, s);
    UnsyncedBound(cfg, s);
    var h := s.history;
    var flushed := |h| - |LogOps(s.wal)|;
    assert h[..|h|] == h;
    if Pending(s) {
      LastIsPending(cfg, s);
      PendingLogged(cfg, s);
    }
    if s.wal.uncommitted == 0 {
      assert LogOps(Survivor(s.wal, cut)) == LogOps(s.wal) == LogOps(s.wal)[..|LogOps(s.wal)|];
      UndecidedWhole(s.base, h, flushed, Contents(s.tables));
    } else {
      assert LogOps(s.wal)[..|LogOps(s.wal)| - 1] == h[flushed..|h| - 1];
      UndecidedLast(s.base, h, flushed, LogOps(Survivor(s.wal, cut)));
    }
  }

  lemma UnsyncedBound(cfg: Config, s: State)
    requires Inv(cfg, s) && Serving(s)
    ensures s.wal.uncommitted <= MaxUnsynced(cfg.sync) + (if s.phase.Appended? then 1 else 0)
  {
    hide WellFormed, Contents, Apply, Replay, Records;
  }

  lemma PendingLogged(cfg: Config, s: State)
    requires Inv(cfg, s) && Pending(s)
    ensures LogOps(s.wal) != []
  {
    hide WellFormed, Contents, Apply, Replay, Records;
  }

  /** Replaying the whole log over the tables, flushed already or not, gives all of history. */
  lemma WholeLog(base: View, h: seq<Operation>, flushed: nat)
    requires flushed <= |h|
    ensures Apply(Apply(base, h[..flushed]), h[flushed..]) == Apply(base, h)
    ensures Apply(Apply(base, h), h[flushed..]) == Apply(base, h)
  {
    hide Apply;
    assert h == h[..flushed] + h[flushed..];
    ApplyConcat(base, h[..flushed], h[flushed..]);
    ApplyIdempotent(Apply(base, h[..flushed]), h[flushed..]);
  }

  lemma DownStep(cfg: Config, s: State, l: Label, v: View, f: Option<Operation>) returns (taken: Option<Operation>)
    requires Inv(cfg, s) && !Serving(s) && Enabled(s, l) && Explained(s, v, f)
    ensures Takes(l, f, taken) && Explained(Next(cfg, s, l), ApplyTaken(v, taken), StepInFlight(f, l))
  {
    hide Apply, ApplyOne, LogOps, DurableOps, Contents, Replay, Undecided, Storable;
    taken := None;
    var tables, durable, log := Contents(s.tables), DurableOps(s.wal), LogOps(s.wal);
    if l.Crash? {
      SurvivorPrefix(s.wal, l.cut);
      UndecidedCrash(tables, durable, log, LogOps(Survivor(s.wal, l.cut)), v, f);
    } else if l.FlushRecovered? {
      ReplayOver(log, s.tables);
      UndecidedFlush(tables, durable, log, v, f);
    } else if l.ResetWal? {
      EmptyLayer(s.tables);
      UndecidedMap(tables, durable, log, v, f);
      if Contents(s.tables) != v {
        taken := f;
      }
    }
  }

  lemma ServingStep(cfg: Config, s: State, l: Label, v: View, f: Option<Operation>) returns (taken: Option<Operation>)
    requires Inv(cfg, s) && Serving(s) && Enabled(s, l) && !l.Crash? && Explained(s, v, f)
    ensures Takes(l, f, taken) && Explained(Next(cfg, s, l), ApplyTaken(v, taken), StepInFlight(f, l))
  {
    hide Inv, Apply, ApplyOne, Contents, Replay, Scan, Storable, Write, SyncIfDue, TotalSize, Insert;
    NonCrashStep(cfg, s, l);
    taken := if l.InsertMem? then f else None;
    var t := Next(cfg, s, l);
    if l.CloseSync? {
      assert t.wal.written[..t.wal.synced] == t.wal.written;
    } else {
      assert StepInFlight(f, l) == if Pending(t) then Some(t.phase.op) else None;
    }
  }

  lemma ExplainedStep(cfg: Config, s: State, l: Label, v: View, f: Option<Operation>) returns (taken: Option<Operation>)
    requires Inv(cfg, s) && Enabled(s, l) && Explained(s, v, f)
    requires MaxUnsynced(cfg.sync) == 0 || !l.Crash?
    ensures Takes(l, f, taken) && Explained(Next(cfg, s, l), ApplyTaken(v, taken), StepInFlight(f, l))
  {
    hide Inv, Observed, Next, Enabled, Undecided, Contents, DurableOps, LogOps;
    if !Serving(s) {
      taken := DownStep(cfg, s, l, v, f);
    } else if l.Crash? {
      SyncedCrash(cfg, s, l.cut);
      taken := None;
    } else {
      taken := ServingStep(cfg, s, l, v, f);
    }
  }

  /** No operation in flight, nothing undecided, no get in progress: an engine between
      calls, or the disk of one that is down, with a log that is synced. */
  ghost predicate Settled(cfg: Config, s: State) {
    Inv(cfg, s) && s.gets == map[] && (s.phase.Idle? || (!Serving(s) && s.wal.synced == |s.wal.written|))
  }

  lemma SettledExplained(cfg: Config, s: State)
    requires Settled(cfg, s)
    ensures Explained(s, Observed(s), None)
  {
    hide Inv, Scan, Apply, Contents;
    if !s.phase.Idle? {
      assert s.wal.written[..s.wal.synced] == s.wal.written;
    }
  }

  /** A fresh directory is one such start, with the empty map. */
  lemma InitialSettled(cfg: Config)
    ensures Settled(cfg, INITIAL) && Observed(INITIAL) == map[]
  {
    InitialInv(cfg);
  }

  lemma TakenLast(taken: seq<Option<Operation>>, v: View, last: Option<Operation>)
    ensures Apply(v, Taken(taken + [last])) == ApplyTaken(Apply(v, Taken(taken)), last)
  {
    assert (taken + [last])[..|taken|] == taken;
    match last
    case None => assert Taken(taken) + [] == Taken(taken);
    case Some(op) => ApplyLast(v, Taken(taken), op);
  }

  /** At every moment of the run at which the engine serves, its map is the map at the
      start after the operations taken so far, in order. */
  ghost predicate RefinesMap(cfg: Config, start: State, labels: seq<Label>, taken: seq<Option<Operation>>)
    requires |taken| == |labels|
  {
    forall k, m | 0 <= k <= |labels| && Reaches(cfg, start, labels[..k], m) && Serving(m) ::
      Observed(m) == Apply(Observed(start), Taken(taken[..k]))
  }

  /** Refinement of the plain map over whole runs. If every append is synced, crashes may
      fall anywhere: each completed open has all inserted operations, and possibly the one
      that was in flight. Without crashes the same holds for every strategy. */
  lemma {:induction false} SyncedRun(cfg: Config, start: State, labels: seq<Label>, s: State)
    returns (taken: seq<Option<Operation>>)
    requires Settled(cfg, start) && Reaches(cfg, start, labels, s)
    requires MaxUnsynced(cfg.sync) == 0 || forall l <- labels :: !l.Crash?
    ensures Explains(labels, taken) && RefinesMap(cfg, start, labels, taken)
    ensures Inv(cfg, s) && Explained(s, Apply(Observed(start), Taken(taken)), InFlight(labels))
    decreases |labels|
  {
    hide Next, Enabled, Observed, Inv, Explained, Takes, StepInFlight, After, Settled;
    if labels == [] {
      taken := [];
      NoSteps(cfg, start, s);
      SettledExplained(cfg, start);
      SettledInv(cfg, start);
    } else {
      var before, last := labels[..|labels| - 1], labels[|labels| - 1];
      var m := LastStep(cfg, start, labels, s);
      var earlier := SyncedRun(cfg, start, before, m);
      assert last in labels;
      var v := Apply(Observed(start), Taken(earlier));
      var one := ExplainedStep(cfg, m, last, v, InFlight(before));
      StepInv(cfg, m, last);
      TakenLast(earlier, Observed(start), one);
      taken := earlier + [one];
      assert taken[..|before|] == earlier;
      ExplainsLast(labels, taken);
    }
    ExplainedServes(s, Apply(Observed(start), Taken(taken)), InFlight(labels));
    RefinesLast(cfg, start, labels, s, taken);
  }

  lemma SettledInv(cfg: Config, s: State)
    requires Settled(cfg, s)
    ensures Inv(cfg, s)
  {
    hide Inv;
  }

  lemma ExplainedServes(s: State, v: View, f: Option<Operation>)
    requires Explained(s, v, f)
    ensures Serving(s) ==> Observed(s) == v
  {
    hide Observed, Undecided;
  }

  lemma ExplainsLast(labels: seq<Label>, taken: seq<Option<Operation>>)
    requires |taken| == |labels| > 0 && Explains(labels[..|labels| - 1], taken[..|labels| - 1])
    requires Takes(labels[|labels| - 1], InFlight(labels[..|labels| - 1]), taken[|labels| - 1])
    ensures Explains(labels, taken)
  {
    hide InFlight, Takes;
    var before := labels[..|labels| - 1];
    forall i | 0 <= i < |labels| ensures Takes(labels[i], InFlight(labels[..i]), taken[i]) {
      if i < |before| {
        assert before[..i] == labels[..i] && before[i] == labels[i];
      }
    }
  }

  lemma RefinesLast(cfg: Config, start: State, labels: seq<Label>, s: State, taken: seq<Option<Operation>>)
    requires |taken| == |labels| && Reaches(cfg, start, labels, s)
    requires Serving(s) ==> Observed(s) == Apply(Observed(start), Taken(taken))
    requires labels != [] ==> RefinesMap(cfg, start, labels[..|labels| - 1], taken[..|labels| - 1])
    ensures RefinesMap(cfg, start, labels, taken)
  {
    hide After, Observed, Apply, Taken, Serving;
    forall k, m | 0 <= k <= |labels| && Reaches(cfg, start, labels[..k], m) && Serving(m)
      ensures Observed(m) == Apply(Observed(start), Taken(taken[..k])) {
      if k < |labels| {
        var before := labels[..|labels| - 1];
        assert before[..k] == labels[..k] && taken[..|labels| - 1][..k] == taken[..k];
      } else {
        assert labels[..k] == labels && taken[..k] == taken;
      }
    }
  }

  /** While the engine is down, its disk holds that map, or that map with the operation
      in flight. */
  lemma DownMap(s: State, v: View, f: Option<Operation>)
    requires !Serving(s) && Explained(s, v, f)
    ensures Observed(s) == v || (f.Some? && Observed(s) == ApplyOne(v, f.value))
  {
    hide Contents, DurableOps, LogOps, Apply, ApplyOne, Undecided;
    UndecidedMap(Contents(s.tables), DurableOps(s.wal), LogOps(s.wal), v, f);
  }

  // -- Bounded loss for every strategy, through to the reopened engine ---------

  /** No crash during the recovery shortens the log the first crash left. */
  predicate KeepsLog(recovery: seq<Label>, cut: nat) {
    forall l <- recovery :: l.Crash? ==> l.cut == cut
  }

  /** Any run, a crash anywhere while serving, then any recovery that completes, however
      often interrupted by further crashes. Every key has its value after some prefix of
      history that has all synced operations; so keys not touched since the last sync have
      their latest value. */
  lemma CrashLossBounded(cfg: Config, start: State, labels: seq<Label>, s: State, cut: nat,
                         recovery: seq<Label>, t: State)
    requires Inv(cfg, start) && Reaches(cfg, start, labels, s) && Serving(s) && Enabled(s, Crash(cut))
    requires CompletedOpen(recovery) && Reaches(cfg, Next(cfg, s, Crash(cut)), recovery, t)
    ensures Serving(t) && 0 <= Synced(s) <= |s.history| && Inserted(s) - Synced(s) <= MaxUnsynced(cfg.sync)
    ensures forall key :: Recent(Observed(t), s.base, s.history, Synced(s), key)
    ensures forall key | !Touches(s.history[Synced(s)..], key) ::
              Get(Observed(t), key) == Get(Apply(s.base, s.history), key)
  {
    hide Inv, Observed, Next, Enabled, Reaches, CompletedOpen, Recent, Apply, Touches, Get, LogOps;
    RunInv(cfg, start, labels, s);
    SyncedBound(cfg, s);
    CrashView(cfg, s, cut);
    var d := Next(cfg, s, Crash(cut));
    OpenServes(cfg, d, recovery, t);
    forall key ensures Recent(Observed(t), s.base, s.history, Synced(s), key) {
      CompletedIsAttempt(recovery);
      RecoveryRecent(cfg, d, recovery, t, key);
      RecentInHistory(cfg, s, cut, Observed(t), key);
    }
    forall key | !Touches(s.history[Synced(s)..], key)
      ensures Get(Observed(t), key) == Get(Apply(s.base, s.history), key) {
      RecentUntouched(Observed(t), s.base, s.history, Synced(s), key);
    }
  }

  lemma CompletedIsAttempt(labels: seq<Label>)
    requires CompletedOpen(labels)
    ensures OpenAttempt(labels)
  {
    hide OpenAttempt;
  }

  lemma OpenServes(cfg: Config, d: State, recovery: seq<Label>, t: State)
    requires Stopped(d) && CompletedOpen(recovery) && Reaches(cfg, d, recovery, t)
    ensures Serving(t)
  {
    hide Serving, OpenAttempt, CompletedOpen, Observed, After, Overlaid, LogOps, DurableOps, Contents;
    CompletedIsAttempt(recovery);
    var _ := InterruptedOpen(cfg, d, recovery, t);
  }

  /** A value after a prefix of the surviving log is a value after a prefix of history. */
  lemma RecentInHistory(cfg: Config, s: State, cut: nat, v: View, key: Key)
    requires Inv(cfg, s) && Serving(s) && s.wal.synced <= cut <= |s.wal.written|
    requires var w := Survivor(s.wal, cut); Recent(v, Contents(s.tables), LogOps(w), |DurableOps(w)|, key)
    ensures Recent(v, s.base, s.history, Synced(s), key)
  {
    hide Inv, Apply, Touches, Get, LogOps, DurableOps, Contents, WellFormed, WholeRecords, Records;
    LogInv(cfg, s);
    LogAfterCrash(s.wal, cut);
    SurvivorPrefix(s.wal, cut);
    var h, kept := s.history, LogOps(Survivor(s.wal, cut));
    var flushed := |h| - |LogOps(s.wal)|;
    var n :| |DurableOps(s.wal)| <= n <= |kept| && Get(v, key) == Get(Apply(Contents(s.tables), kept[..n]), key);
    assert kept[..n] == h[flushed..flushed + n];
    if FlushWindow(s) {
      ReplayedAt(s.base, h, flushed, flushed + n, key);
      assert h[..|h|] == h;
    } else {
      ApplyConcat(s.base, h[..flushed], kept[..n]);
      assert h[..flushed + n] == h[..flushed] + kept[..n];
    }
  }

  lemma RecentUntouched(v: View, base: View, h: seq<Operation>, lo: nat, key: Key)
    requires lo <= |h| && Recent(v, base, h, lo, key) && !Touches(h[lo..], key)
    ensures Get(v, key) == Get(Apply(base, h), key)
  {
    hide Apply, Get;
    var n :| lo <= n <= |h| && Get(v, key) == Get(Apply(base, h[..n]), key);
    assert h == h[..n] + h[n..];
    assert forall op <- h[n..] :: op in h[lo..];
    ApplyConcat(base, h[..n], h[n..]);
    ApplyAt(Apply(base, h[..n]), base, h[n..], key);
  }

  /** If the crashes during recovery do not shorten the log any further, one prefix of
      history serves for all keys: outside the flush window it is the reopened map, inside
      it every key has its value at that prefix or its latest one. */
  lemma CrashLossPrefix(cfg: Config, start: State, labels: seq<Label>, s: State, cut: nat,
                        recovery: seq<Label>, t: State)
    returns (n: nat)
    requires Inv(cfg, start) && Reaches(cfg, start, labels, s) && Serving(s) && Enabled(s, Crash(cut))
    requires CompletedOpen(recovery) && KeepsLog(recovery, cut)
    requires Reaches(cfg, Next(cfg, s, Crash(cut)), recovery, t)
    ensures Serving(t) && Synced(s) <= n <= |s.history| && Inserted(s) - n <= MaxUnsynced(cfg.sync)
    ensures !FlushWindow(s) ==> Observed(t) == Apply(s.base, s.history[..n])
    ensures forall key :: Get(Observed(t), key) == Get(Apply(s.base, s.history), key)
                          || Get(Observed(t), key) == Get(Apply(s.base, s.history[..n]), key)
  {
    hide Inv, Observed, Next, Enabled, Reaches, CompletedOpen, Apply, Touches, Get, LogOps, Records, WholeRecords;
    RunInv(cfg, start, labels, s);
    CrashView(cfg, s, cut);
    var d := Next(cfg, s, Crash(cut));
    OpenServes(cfg, d, recovery, t);
    CompletedIsAttempt(recovery);
    assert |d.wal.written| == cut;
    RecoveryIdempotent(cfg, d, recovery, t);
    DownObserves(d);
    n := CrashMap(cfg, s, cut);
  }

  /** What a single crash leaves on disk, for every strategy. */
  lemma CrashMap(cfg: Config, s: State, cut: nat) returns (n: nat)
    requires Inv(cfg, s) && Serving(s) && Enabled(s, Crash(cut))
    ensures Synced(s) <= n <= |s.history| && Inserted(s) - n <= MaxUnsynced(cfg.sync)
    ensures !FlushWindow(s) ==> Observed(Next(cfg, s, Crash(cut))) == Apply(s.base, s.history[..n])
    ensures var v := Observed(Next(cfg, s, Crash(cut)));
      forall key :: Get(v, key) == Get(Apply(s.base, s.history), key)
                    || Get(v, key) == Get(Apply(s.base, s.history[..n]), key)
    ensures var v := Observed(Next(cfg, s, Crash(cut)));
      MaxUnsynced(cfg.sync) == 0 ==> v == Observed(s) || (Pending(s) && v == ApplyOne(Observed(s), s.phase.op))
  {
    hide Inv, Observed, Next, Enabled, Apply, ApplyOne, Touches, Get, LogOps, Records, WholeRecords, Explained;
    if FlushWindow(s) {
      n := CrashInWindow(cfg, s, cut);
    } else {
      n := CrashOutsideWindow(cfg, s, cut);
    }
    if MaxUnsynced(cfg.sync) == 0 {
      SyncedCrash(cfg, s, cut);
      CrashView(cfg, s, cut);
      DownMap(Next(cfg, s, Crash(cut)), Observed(s), if Pending(s) then Some(s.phase.op) else None);
    }
  }

  lemma DownObserves(s: State)
    requires s.phase.Down?
    ensures Observed(s) == Reopened(s)
  {
    hide Reopened;
  }

  // -- When is the recovered map a prefix of history? -------------------------

  ghost predicate IsPrefixMap(s: State, v: View) {
    exists n :: 0 <= n <= |s.history| && v == Apply(s.base, s.history[..n])
  }

  /** Every crash of a serving engine, in every run, leaves a disk that reopens to the map
      after some prefix of the operations since the engine opened. */
  ghost predicate AlwaysRecoversPrefix(cfg: Config) {
    forall labels, s, cut | Reaches(cfg, INITIAL, labels, s) && Serving(s) && Enabled(s, Crash(cut)) ::
      IsPrefixMap(s, Observed(Next(cfg, s, Crash(cut))))
  }

  /** The same even if the reopening is itself interrupted by crashes that shorten the log. */
  ghost predicate AlwaysReopensToPrefix(cfg: Config) {
    forall labels, s, cut, recovery, t
      | Reaches(cfg, INITIAL, labels, s) && Serving(s) && Enabled(s, Crash(cut))
        && CompletedOpen(recovery) && Reaches(cfg, Next(cfg, s, Crash(cut)), recovery, t) ::
      IsPrefixMap(s, Observed(t))
  }

  /** Checkable from the configuration: at most one record is ever unsynced when a
      flush starts ... */
  predicate PrefixSafe(cfg: Config) {
    MaxUnsynced(cfg.sync) <= 1 || cfg.limit == 0
  }

  /** ... and at most one whenever the engine crashes. */
  predicate ReopenSafe(cfg: Config) {
    MaxUnsynced(cfg.sync) == 0 || cfg.limit == 0
  }

  /** Losing at most one record, the replay gives back the map at the flush or the one
      before its last operation. */
  lemma WindowPrefix(base: View, h: seq<Operation>, flushed: nat, n: nat)
    requires flushed <= n <= |h| <= n + 1
    ensures var v := Apply(Apply(base, h), h[flushed..n]); v == Apply(base, h) || v == Apply(base, h[..n])
  {
    hide Apply, Touches;
    if n == |h| {
      assert h[flushed..n] == h[flushed..];
      WholeLog(base, h, flushed);
    } else {
      var start, kept := Apply(base, h[..flushed]), h[flushed..n];
      ApplyConcat(base, h[..flushed], kept);
      assert h[..n] == h[..flushed] + kept;
      assert h == h[..flushed] + (kept + [h[n]]);
      ApplyConcat(base, h[..flushed], kept + [h[n]]);
      OneLost(start, kept, h[n]);
    }
  }

  /** Replaying a part of the log that misses at most one record in the flush window. */
  lemma PartPrefix(cfg: Config, s: State, part: seq<Operation>)
    requires Inv(cfg, s) && Serving(s) && part <= LogOps(s.wal)
    requires FlushWindow(s) ==> |LogOps(s.wal)| <= |part| + 1
    ensures IsPrefixMap(s, Apply(Contents(s.tables), part))
  {
    hide Inv, Apply, LogOps, Contents, WellFormed, IsPrefixMap;
    LogInv(cfg, s);
    var h := s.history;
    var flushed := |h| - |LogOps(s.wal)|;
    var n := flushed + |part|;
    var v := Apply(Contents(s.tables), part);
    assert part == h[flushed..n];
    if FlushWindow(s) {
      WindowPrefix(s.base, h, flushed, n);
      PrefixMap(s, v, if v == Apply(s.base, h) then |h| else n);
    } else {
      ApplyConcat(s.base, h[..flushed], part);
      assert h[..n] == h[..flushed] + part;
      PrefixMap(s, v, n);
    }
  }

  lemma PrefixMap(s: State, v: View, n: nat)
    requires n <= |s.history|
    requires v == Apply(s.base, s.history[..n]) || (n == |s.history| && v == Apply(s.base, s.history))
    ensures IsPrefixMap(s, v)
  {
    hide Apply;
    assert s.history[..|s.history|] == s.history;
  }

  lemma AtMostOneLost(cfg: Config, s: State)
    requires Inv(cfg, s) && Serving(s)
    ensures PrefixSafe(cfg) && FlushWindow(s) ==> s.wal.uncommitted <= 1
    ensures ReopenSafe(cfg) ==> s.wal.uncommitted <= 1
  {
    hide Contents, Apply, Replay, Scan, EncodeAll, AllStorable;
  }

  lemma SafeCrash(cfg: Config, s: State, cut: nat)
    requires PrefixSafe(cfg) && Inv(cfg, s) && Serving(s) && Enabled(s, Crash(cut))
    ensures IsPrefixMap(s, Observed(Next(cfg, s, Crash(cut))))
  {
    hide Inv, Observed, Next, Enabled, Apply, PrefixSafe, IsPrefixMap, WholeRecords, LogOps, DurableOps, WellFormed,
      Records, Contents;
    CrashView(cfg, s, cut);
    LogInv(cfg, s);
    LogAfterCrash(s.wal, cut);
    AtMostOneLost(cfg, s);
    PartPrefix(cfg, s, LogOps(Survivor(s.wal, cut)));
  }

  /** Reopening after a crash, for a run from any sound start, however often interrupted. */
  lemma SafeReopen(cfg: Config, s: State, cut: nat, recovery: seq<Label>, t: State)
    requires ReopenSafe(cfg) && Inv(cfg, s) && Serving(s) && Enabled(s, Crash(cut))
    requires CompletedOpen(recovery) && Reaches(cfg, Next(cfg, s, Crash(cut)), recovery, t)
    ensures IsPrefixMap(s, Observed(t))
  {
    hide Inv, Observed, Next, Enabled, Apply, ReopenSafe, IsPrefixMap, WholeRecords, LogOps, DurableOps, WellFormed,
      Records, Contents, Reaches, CompletedOpen;
    CrashView(cfg, s, cut);
    LogInv(cfg, s);
    LogAfterCrash(s.wal, cut);
    SurvivorPrefix(s.wal, cut);
    AtMostOneLost(cfg, s);
    CompletedIsAttempt(recovery);
    RecoveryOneLost(cfg, Next(cfg, s, Crash(cut)), recovery, t);
    ReopenedIs(Next(cfg, s, Crash(cut)));
    PartPrefix(cfg, s, LogOps(Survivor(s.wal, cut)));
    PartPrefix(cfg, s, DurableOps(s.wal));
  }

  // -- The configurations that are not safe -----------------------------------

  const EMPTY_KEY: Key := []
  const OTHER_KEY: Key := [0]
  const FIRST: Operation := Put(EMPTY_KEY, [])
  const SECOND: Operation := Delete(EMPTY_KEY)
  const THIRD: Operation := Put(OTHER_KEY, [])

  function Firsts(k: nat): (ops: seq<Operation>)
    ensures |ops| == k && forall i | 0 <= i < k :: ops[i] == FIRST
  {
    seq(k, i => FIRST)
  }

  lemma SmallStorable()
    ensures Storable(FIRST) && Storable(SECOND) && Storable(THIRD)
  {
    hide LE;
  }

  lemma Opened(cfg: Config) returns (labels: seq<Label>, s: State)
    ensures Reaches(cfg, INITIAL, labels, s) && s == State(EMPTY, map[], [], Idle, map[], map[], [])
    ensures LogOps(s.wal) == []
  {
    hide Records, After;
    EmptyWellFormed();
    labels, s := [], INITIAL;
    assert Reaches(cfg, INITIAL, [], INITIAL) by {
      RunStarts(cfg, INITIAL);
    }
    ReachesStep(cfg, INITIAL, labels, s, ReplayLog);
    labels, s := labels + [ReplayLog], Next(cfg, s, ReplayLog);
    ReachesStep(cfg, INITIAL, labels, s, FlushRecovered);
    labels, s := labels + [FlushRecovered], Next(cfg, s, FlushRecovered);
    ReachesStep(cfg, INITIAL, labels, s, ResetWal);
    labels, s := labels + [ResetWal], Next(cfg, s, ResetWal);
  }

  /** One complete append and insertion. */
  lemma OneWrite(cfg: Config, labels: seq<Label>, s: State, op: Operation) returns (more: seq<Label>, t: State)
    requires Reaches(cfg, INITIAL, labels, s) && s.phase.Idle? && Storable(op)
    ensures Reaches(cfg, INITIAL, more, t)
    ensures var mem := Insert(s.mem, op);
      t == State(SyncIfDue(cfg.sync, Write(s.wal, op, 0)), mem, s.tables,
                 if TotalSize(mem) >= cfg.limit then FlushDue else Idle, s.gets, s.base, s.history + [op])
    ensures LogOps(t.wal) == LogOps(s.wal) + [op]
  {
    hide Storable, Write, SyncIfDue, TotalSize, Insert, After, Records;
    var written := Write(s.wal, op, 0);
    ReachableInv(cfg, labels, s);
    LogGrows(cfg, s, op);
    ReachesStep(cfg, INITIAL, labels, s, Begin(op, 0));
    more, t := labels + [Begin(op, 0)], Next(cfg, s, Begin(op, 0));
    ReachesStep(cfg, INITIAL, more, t, ApplySync);
    more, t := more + [ApplySync], Next(cfg, t, ApplySync);
    ReachesStep(cfg, INITIAL, more, t, InsertMem);
    more, t := more + [InsertMem], Next(cfg, t, InsertMem);
  }

  lemma LogGrows(cfg: Config, s: State, op: Operation)
    requires Inv(cfg, s) && s.phase.Idle? && Storable(op)
    ensures LogOps(SyncIfDue(cfg.sync, Write(s.wal, op, 0))) == LogOps(s.wal) + [op]
  {
    hide Storable, Write, WellFormed, Contents, Apply, Replay, Records;
    WriteWellFormed(s.wal, op, 0);
    SyncWellFormed(Write(s.wal, op, 0));
    OperationsAppend(Records(s.wal), WalEntry(s.wal.nextLsn, op, 0));
  }

  lemma SmallSizes()
    ensures TotalSize(map[EMPTY_KEY := Live([])]) == 0
    ensures TotalSize(map[EMPTY_KEY := Tombstone]) == 0
    ensures TotalSize(map[EMPTY_KEY := Tombstone][OTHER_KEY := Live([])]) == 1
  {
    var none: Table := map[];
    TotalSizeUpdate(none, EMPTY_KEY, Live([]));
    TotalSizeUpdate(none, EMPTY_KEY, Tombstone);
    TotalSizeUpdate(none[EMPTY_KEY := Tombstone], OTHER_KEY, Live([]));
    assert none[EMPTY_KEY := Live([])] == map[EMPTY_KEY := Live([])];
    assert none[EMPTY_KEY := Tombstone] == map[EMPTY_KEY := Tombstone];
  }

  lemma {:induction false} ManyPuts(cfg: Config, k: nat) returns (labels: seq<Label>, s: State)
    requires !ReopenSafe(cfg) && k <= cfg.sync.count
    ensures Reaches(cfg, INITIAL, labels, s)
    ensures s.phase.Idle? && s.base == map[] && s.history == Firsts(k) && LogOps(s.wal) == s.history
    ensures s.mem == (if k == 0 then map[] else map[EMPTY_KEY := Live([])])
    ensures s.wal.uncommitted == if k == cfg.sync.count then 0 else k
  {
    hide Records, Serialize, TotalSize, Storable, After;
    if k == 0 {
      labels, s := Opened(cfg);
    } else {
      var before, m := ManyPuts(cfg, k - 1);
      SmallStorable();
      labels, s := OneWrite(cfg, before, m, FIRST);
      SmallSizes();
      assert s.mem == map[EMPTY_KEY := Live([])];
      assert s.history == Firsts(k);
    }
  }

  /** `count` synced puts, then a delete that is not. */
  lemma DeletedState(cfg: Config) returns (labels: seq<Label>, s: State)
    requires !ReopenSafe(cfg)
    ensures Reaches(cfg, INITIAL, labels, s) && s.phase.Idle? && s.mem == map[EMPTY_KEY := Tombstone]
    ensures s.base == map[] && s.history == Firsts(cfg.sync.count) + [SECOND]
    ensures LogOps(s.wal) == s.history && s.wal.uncommitted == 1
  {
    hide Records, Serialize, TotalSize, Storable, After;
    SmallStorable();
    SmallSizes();
    var before, m := ManyPuts(cfg, cfg.sync.count);
    labels, s := OneWrite(cfg, before, m, SECOND);
    assert s.mem == map[EMPTY_KEY := Tombstone];
  }

  /** The state in which a crash goes wrong: two unsynced operations, and the flush has
      just made its table visible. */
  lemma BadState(cfg: Config) returns (labels: seq<Label>, s: State)
    requires !PrefixSafe(cfg)
    ensures Reaches(cfg, INITIAL, labels, s) && s.phase.TableAdded?
    ensures s.base == map[] && s.history == Firsts(cfg.sync.count) + [SECOND, THIRD]
    ensures LogOps(s.wal) == s.history && s.wal.uncommitted == 2
  {
    hide Records, Serialize, TotalSize, Storable, After;
    SmallStorable();
    SmallSizes();
    var before, m := DeletedState(cfg);
    labels, s := OneWrite(cfg, before, m, THIRD);
    assert s.mem == map[EMPTY_KEY := Tombstone][OTHER_KEY := Live([])];
    assert s.history == Firsts(cfg.sync.count) + [SECOND, THIRD];
    if s.phase.Idle? {
      assert OTHER_KEY in s.mem;
      ReachesStep(cfg, INITIAL, labels, s, StartFlush);
      labels, s := labels + [StartFlush], Next(cfg, s, StartFlush);
    }
    ReachesStep(cfg, INITIAL, labels, s, AddTable);
    labels, s := labels + [AddTable], Next(cfg, s, AddTable);
  }

  /** The map recovered there mixes the past with the future. */
  lemma BadView(k: nat, n: nat)
    requires k > 0 && n <= k + 2
    ensures var h := Firsts(k) + [SECOND, THIRD];
      && Touches(h[..k], EMPTY_KEY) && !Touches(h[..k], OTHER_KEY)
      && Get(Apply(map[], h[..k]), EMPTY_KEY) == Some([]) && Get(Apply(map[], h), OTHER_KEY) == Some([])
      && !(Get(Apply(map[], h[..n]), EMPTY_KEY) == Some([]) && Get(Apply(map[], h[..n]), OTHER_KEY) == Some([]))
  {
    var h := Firsts(k) + [SECOND, THIRD];
    assert h[..k] == Firsts(k) && h[..k][0] == FIRST;
    assert h[..k][..k - 1] == h[..k - 1];
    assert h[..k + 1] == Firsts(k) + [SECOND] && h[..k + 1][..k] == h[..k];
    assert h[..k + 2] == h && h[..k + 1 + 1][..k + 1] == h[..k + 1];
    if n <= k + 1 {
      assert forall op <- h[..n] :: op.key == EMPTY_KEY;
      ApplyAt(map[], map[], h[..n], OTHER_KEY);
    }
  }

  lemma BadCrash(cfg: Config) returns (labels: seq<Label>, s: State, cut: nat)
    requires !PrefixSafe(cfg)
    ensures Reaches(cfg, INITIAL, labels, s) && Serving(s) && Enabled(s, Crash(cut))
    ensures var v := Observed(Next(cfg, s, Crash(cut)));
      Get(v, EMPTY_KEY) == Some([]) && Get(v, OTHER_KEY) == Some([])
    ensures s.base == map[] && s.history == Firsts(cfg.sync.count) + [SECOND, THIRD]
  {
    hide After, Observed, Apply, Records, Touches, WholeRecords, Inv, WellFormed, Storable;
    labels, s := BadState(cfg);
    var k := cfg.sync.count;
    cut := s.wal.synced;
    ReachableInv(cfg, labels, s);
    WindowLog(cfg, s);
    CutAtSynced(s.wal);
    var n := CrashInWindow(cfg, s, cut);
    assert n == k;
    BadView(k, 0);
    assert s.history[0..n] == s.history[..k] == s.history[..n];
  }

  lemma UnsafeCrash(cfg: Config)
    requires !PrefixSafe(cfg)
    ensures !AlwaysRecoversPrefix(cfg)
  {
    hide After, Observed, Apply, Next, Enabled, Get, Touches, Reaches;
    var labels, s, cut := BadCrash(cfg);
    var v := Observed(Next(cfg, s, Crash(cut)));
    if IsPrefixMap(s, v) {
      var p :| 0 <= p <= |s.history| && v == Apply(s.base, s.history[..p]);
      BadView(cfg.sync.count, p);
    }
  }

  lemma WindowLog(cfg: Config, s: State)
    requires Inv(cfg, s) && FlushWindow(s)
    ensures WellFormed(s.wal)
  {
    hide WellFormed, Contents, Apply, Replay, Records;
  }

  /** The state in which two crashes go wrong: the second of two unsynced operations is
      just being appended. */
  lemma BadAppend(cfg: Config) returns (labels: seq<Label>, s: State)
    requires !ReopenSafe(cfg)
    ensures Reaches(cfg, INITIAL, labels, s) && s.phase.Appended?
    ensures s.base == map[] && s.history == Firsts(cfg.sync.count) + [SECOND, THIRD]
    ensures LogOps(s.wal) == s.history && s.wal.uncommitted == 2
  {
    hide Records, Serialize, TotalSize, Storable, After;
    SmallStorable();
    var before, m := DeletedState(cfg);
    ReachableInv(cfg, before, m);
    LogInv(cfg, m);
    WriteWellFormed(m.wal, THIRD, 0);
    OperationsAppend(Records(m.wal), WalEntry(m.wal.nextLsn, THIRD, 0));
    ReachesStep(cfg, INITIAL, before, m, Begin(THIRD, 0));
    labels, s := before + [Begin(THIRD, 0)], Next(cfg, m, Begin(THIRD, 0));
    assert s.history == Firsts(cfg.sync.count) + [SECOND, THIRD];
  }

  /** The first crash leaves the whole log, the second one, after the recovered table
      was flushed, only its synced part. */
  lemma BadReopen(cfg: Config) returns (labels: seq<Label>, s: State, cut: nat, recovery: seq<Label>, t: State)
    requires !ReopenSafe(cfg)
    ensures Reaches(cfg, INITIAL, labels, s) && Serving(s) && Enabled(s, Crash(cut))
    ensures CompletedOpen(recovery) && Reaches(cfg, Next(cfg, s, Crash(cut)), recovery, t)
    ensures Get(Observed(t), EMPTY_KEY) == Some([]) && Get(Observed(t), OTHER_KEY) == Some([])
    ensures s.base == map[] && s.history == Firsts(cfg.sync.count) + [SECOND, THIRD]
  {
    hide Reaches, Observed, Apply, Records, Touches, WholeRecords, Inv, WellFormed, Storable, LogOps, DurableOps,
      Contents, Get, CompletedOpen;
    labels, s := BadAppend(cfg);
    var k := cfg.sync.count;
    ReachableInv(cfg, labels, s);
    LogInv(cfg, s);
    CutAtSynced(s.wal);
    cut := |s.wal.written|;
    CrashView(cfg, s, cut);
    LogAfterCrash(s.wal, cut);
    SurvivorPrefix(s.wal, cut);
    assert s.wal.written[..cut] == s.wal.written;
    SameLog(s.wal, Survivor(s.wal, cut));
    recovery, t := ShortenedOpen(cfg, Next(cfg, s, Crash(cut)));
    var h := s.history;
    assert h[..0] == [] && Apply(s.base, h[..0]) == map[] by { ApplyNothing(s.base); }
    assert DurableOps(s.wal) == h[..k] == h[0..k];
    BadView(k, 0);
    ReplayedAt(map[], h, 0, k, EMPTY_KEY);
    ReplayedAt(map[], h, 0, k, OTHER_KEY);
  }

  lemma ApplyNothing(v: View)
    ensures Apply(v, []) == v
  {
  }

  lemma UnsafeReopen(cfg: Config)
    requires !ReopenSafe(cfg)
    ensures !AlwaysReopensToPrefix(cfg)
  {
    hide After, Observed, Apply, Next, Enabled, Get, Touches, Reaches, CompletedOpen;
    var labels, s, cut, recovery, t := BadReopen(cfg);
    if IsPrefixMap(s, Observed(t)) {
      var p :| 0 <= p <= |s.history| && Observed(t) == Apply(s.base, s.history[..p]);
      BadView(cfg.sync.count, p);
    }
  }

  /** Exactly which configurations always recover a prefix of history: those that sync
      at least every second append, and those that flush on every write. */
  lemma PrefixRecoveryIff(cfg: Config)
    ensures AlwaysRecoversPrefix(cfg) <==> PrefixSafe(cfg)
  {
    hide After, Inv, Next, Observed, Enabled, IsPrefixMap, PrefixSafe;
    if PrefixSafe(cfg) {
      forall labels, s, cut | Reaches(cfg, INITIAL, labels, s) && Serving(s) && Enabled(s, Crash(cut))
        ensures IsPrefixMap(s, Observed(Next(cfg, s, Crash(cut)))) {
        ReachableInv(cfg, labels, s);
        SafeCrash(cfg, s, cut);
      }
    } else {
      UnsafeCrash(cfg);
    }
  }

  /** And exactly which do so however the reopening is interrupted: those that sync every
      append, and those that flush on every write. */
  lemma PrefixReopenIff(cfg: Config)
    ensures AlwaysReopensToPrefix(cfg) <==> ReopenSafe(cfg)
  {
    hide After, Inv, Next, Observed, Enabled, IsPrefixMap, ReopenSafe, CompletedOpen;
    if ReopenSafe(cfg) {
      forall labels, s, cut, recovery, t
        | Reaches(cfg, INITIAL, labels, s) && Serving(s) && Enabled(s, Crash(cut))
          && CompletedOpen(recovery) && Reaches(cfg, Next(cfg, s, Crash(cut)), recovery, t)
        ensures IsPrefixMap(s, Observed(t)) {
        ReachableInv(cfg, labels, s);
        SafeReopen(cfg, s, cut, recovery, t);
      }
    } else {
      UnsafeReopen(cfg);
    }
  }
}
