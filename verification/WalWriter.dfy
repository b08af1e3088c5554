/** Appending to a WAL: sequence numbers, the sync strategy, and what a crash leaves. */
module WalWriters {
  import opened Bytes
  import opened WalEntries
  import opened WalRecovery

  datatype SyncStrategy = EveryWrite | EveryNEntries(count: nat)

  // -- Specification ----------------------------------------------------------

  /** `written` is everything handed to the writer, buffered or not; the first
      `synced` bytes of it have reached the disk. */
  datatype Wal = Wal(written: Bytes, synced: nat, nextLsn: u64, uncommitted: nat)

  const EMPTY: Wal := Wal([], 0, 1, 0)

  function Write(w: Wal, op: Operation, now: u64): Wal {
    Wal(w.written + Serialize(WalEntry(w.nextLsn, op, now)), w.synced, (w.nextLsn + 1) % U64, w.uncommitted + 1)
  }

  function Sync(w: Wal): Wal {
    w.(synced := |w.written|, uncommitted := 0)
  }

  predicate SyncDue(strategy: SyncStrategy, w: Wal) {
    match strategy
    case EveryWrite => true
    case EveryNEntries(count) => w.uncommitted >= count
  }

  function SyncIfDue(strategy: SyncStrategy, w: Wal): Wal {
    if SyncDue(strategy, w) then Sync(w) else w
  }

  /** Records that may be unsynced once an append has returned: at most this many. */
  function MaxUnsynced(strategy: SyncStrategy): nat {
    match strategy
    case EveryWrite => 0
    case EveryNEntries(count) => if count == 0 then 0 else count - 1
  }

  // -- The writer, as written -------------------------------------------------

  class WalWriter {
    const strategy: SyncStrategy
    var file: Bytes
    var synced: nat
    var currentLsn: u64
    var uncommittedCount: nat

    function State(): Wal
      reads this
    {
      Wal(file, synced, currentLsn, uncommittedCount)
    }

    /** Opening truncates whatever the file held. */
    constructor (strategy: SyncStrategy)
      ensures State() == EMPTY && this.strategy == strategy
    {
      this.strategy := strategy;
      file, synced := [], 0;
      currentLsn := 1;
      uncommittedCount := 0;
    }

    /** The first half of `append`: the record is in the writer's buffer. */
    method WriteRecord(op: Operation, now: u64) returns (lsn: u64)
      modifies this
      ensures lsn == old(currentLsn) && State() == Write(old(State()), op, now)
    {
      hide Serialize;
      lsn := currentLsn;
      currentLsn := (currentLsn + 1) % U64;
      file := file + Serialize(WalEntry(lsn, op, now));
      uncommittedCount := uncommittedCount + 1;
    }

    /** The second half of `append`. */
    method ApplyStrategy()
      modifies this
      ensures State() == SyncIfDue(strategy, old(State()))
    {
      match strategy
      case EveryWrite => ForceSync();
      case EveryNEntries(count) =>
        if uncommittedCount >= count {
          ForceSync();
        }
    }

    method Append(op: Operation, now: u64) returns (lsn: u64)
      modifies this
      ensures lsn == old(currentLsn) && State() == SyncIfDue(strategy, Write(old(State()), op, now))
    {
      lsn := WriteRecord(op, now);
      ApplyStrategy();
    }

    method ForceSync()
      modifies this
      ensures State() == Sync(old(State()))
    {
      synced := |file|;
      uncommittedCount := 0;
    }

    method Truncate()
      modifies this
      ensures State() == EMPTY
    {
      file, synced := [], 0;
      currentLsn := 1;
      uncommittedCount := 0;
    }
  }

  // -- The log's invariant ----------------------------------------------------

  function Records(w: Wal): seq<WalEntry> {
    Scan(w.written).entries
  }

  /** The written bytes are exactly records numbered 1, 2, ..., and the synced bytes
      are all of them but the last `uncommitted`. */
  ghost predicate WellFormed(w: Wal) {
    var rs := Records(w);
    && w.written == EncodeAll(rs) && AllStorable(rs)
    && (forall i | 0 <= i < |rs| :: rs[i].lsn == (i + 1) % U64)
    && w.nextLsn == (|rs| + 1) % U64
    && w.uncommitted <= |rs|
    && w.synced == |EncodeAll(rs[..|rs| - w.uncommitted])|
  }

  lemma ScanAll(rs: seq<WalEntry>)
    requires AllStorable(rs)
    ensures Scan(EncodeAll(rs)).entries == rs
  {
    hide Scan, Storable;
    ScanEncoded(rs, []);
    ScanStep([]);
    assert EncodeAll(rs) + [] == EncodeAll(rs);
  }

  lemma EmptyWellFormed()
    ensures WellFormed(EMPTY) && Records(EMPTY) == []
  {
  }

  lemma WriteWellFormed(w: Wal, op: Operation, now: u64)
    requires WellFormed(w) && Storable(op)
    ensures WellFormed(Write(w, op, now))
    ensures Records(Write(w, op, now)) == Records(w) + [WalEntry(w.nextLsn, op, now)]
  {
    hide Scan, Storable, Serialize, EncodeAll;
    var rs, e := Records(w), WalEntry(w.nextLsn, op, now);
    EncodeAllConcat(rs, [e]);
    EncodeAllOne(e);
    ScanAll(rs + [e]);
    assert (rs + [e])[..|rs| - w.uncommitted] == rs[..|rs| - w.uncommitted];
    NextLsn(|rs|);
  }

  lemma NextLsn(m: nat)
    ensures ((m + 1) % U64 + 1) % U64 == (m + 2) % U64
  {
  }

  lemma SyncWellFormed(w: Wal)
    requires WellFormed(w)
    ensures WellFormed(Sync(w)) && Records(Sync(w)) == Records(w)
  {
    assert Records(w)[..|Records(w)|] == Records(w);
  }

  lemma {:induction false} EncodeAllMonotone(rs: seq<WalEntry>, m: nat, n: nat)
    requires m <= n <= |rs|
    ensures |EncodeAll(rs[..m])| <= |EncodeAll(rs[..n])|
  {
    hide Serialize;
    assert rs[..n] == rs[..m] + rs[m..n];
    EncodeAllConcat(rs[..m], rs[m..n]);
  }

  /** A crash keeps some byte prefix, at least the synced one. Recovery then reads a
      prefix of the records, missing at most the uncommitted ones. */
  lemma CrashKeepsPrefix(w: Wal, cut: nat) returns (n: nat)
    requires WellFormed(w) && w.synced <= cut <= |w.written|
    ensures |Records(w)| - w.uncommitted <= n <= |Records(w)|
    ensures n == WholeRecords(Records(w), cut)
    ensures Scan(w.written[..cut]).entries == Records(w)[..n]
  {
    hide Scan, Storable, Serialize, EncodeAll, WholeRecords;
    var rs := Records(w);
    RecoverCut(rs, cut);
    WholeRecordsBounds(rs, cut);
    n := WholeRecords(rs, cut);
    if n < |rs| - w.uncommitted {
      EncodeAllMonotone(rs, n + 1, |rs| - w.uncommitted);
    }
  }

  /** Cutting at the synced length keeps exactly the synced records. */
  lemma CutAtSynced(w: Wal)
    requires WellFormed(w)
    ensures w.synced <= |w.written| && WholeRecords(Records(w), w.synced) == |Records(w)| - w.uncommitted
  {
    hide Scan, Serialize, Storable, WholeRecords;
    var rs := Records(w);
    var m, n := |rs| - w.uncommitted, WholeRecords(rs, w.synced);
    assert rs[..|rs|] == rs;
    EncodeAllMonotone(rs, m, |rs|);
    WholeRecordsBounds(rs, w.synced);
    if n < m {
      EncodeAllMonotone(rs, n + 1, m);
    } else if n > m {
      EncodeAllMonotone(rs, m + 1, n);
      assert rs[..m + 1] == rs[..m] + [rs[m]];
      EncodeAllConcat(rs[..m], [rs[m]]);
      EncodeAllOne(rs[m]);
      SerializeNotEmpty(rs[m]);
    }
  }

  lemma SerializeNotEmpty(e: WalEntry)
    ensures |Serialize(e)| > 0
  {
    hide LE, Payload, Checked;
  }

  /** Recovering a log reports as last number the count of the records it read. */
  lemma RecoveredLsn(w: Wal, cut: nat)
    requires WellFormed(w) && w.synced <= cut <= |w.written|
    ensures var result := Statistics(Scan(w.written[..cut]));
      result.lastLsn == result.recovered % U64 && result.corrupted == 0
  {
    hide Scan, Storable, Serialize, EncodeAll, WholeRecords;
    RecoverCut(Records(w), cut);
    var n := CrashKeepsPrefix(w, cut);
  }

  // -- Whole runs of a writer -------------------------------------------------

  datatype Action = DoAppend(op: Operation, now: u64) | DoSync | DoTruncate

  function Perform(strategy: SyncStrategy, w: Wal, a: Action): Wal {
    match a
    case DoAppend(op, now) => SyncIfDue(strategy, Write(w, op, now))
    case DoSync => Sync(w)
    case DoTruncate => EMPTY
  }

  function RunWriter(strategy: SyncStrategy, actions: seq<Action>): Wal {
    if actions == [] then EMPTY
    else Perform(strategy, RunWriter(strategy, actions[..|actions| - 1]), actions[|actions| - 1])
  }

  /** The operations appended since the last truncation, oldest first. */
  function Logged(actions: seq<Action>): seq<Operation> {
    if actions == [] then [] else
      var before := Logged(actions[..|actions| - 1]);
      match actions[|actions| - 1]
      case DoAppend(op, _) => before + [op]
      case DoSync => before
      case DoTruncate => []
  }

  /** Appends since the log was last synced by request or truncated. */
  function Trailing(actions: seq<Action>): nat {
    if actions == [] || !actions[|actions| - 1].DoAppend? then 0 else Trailing(actions[..|actions| - 1]) + 1
  }

  lemma NextMod(t: nat, c: nat)
    requires c > 0
    ensures (t + 1) % c == if t % c + 1 == c then 0 else t % c + 1
  {
    var q, r := t / c, t % c;
    assert t == c * q + r;
    if r + 1 == c {
      assert t + 1 == c * (q + 1) + 0;
      DivModUnique(t + 1, c, q + 1, 0);
    } else {
      DivModUnique(t + 1, c, q, r + 1);
    }
  }

  function Operations(es: seq<WalEntry>): (ops: seq<Operation>)
    ensures |ops| == |es|
    ensures forall i | 0 <= i < |es| :: ops[i] == es[i].op
  {
    seq(|es|, i requires 0 <= i < |es| => es[i].op)
  }

  /** After any run the log holds the operations since the last truncation as records
      1..m, the next number is m + 1, and fewer than `count` of them are unsynced. */
  lemma {:induction false} WriterRun(strategy: SyncStrategy, actions: seq<Action>)
    requires forall a <- actions :: a.DoAppend? ==> Storable(a.op)
    ensures var w := RunWriter(strategy, actions);
      && WellFormed(w) && Operations(Records(w)) == Logged(actions)
      && w.uncommitted <= MaxUnsynced(strategy)
    decreases |actions|
  {
    hide Scan, Storable, Serialize, WellFormed, Records;
    if actions == [] {
      EmptyWellFormed();
    } else {
      var before, last := actions[..|actions| - 1], actions[|actions| - 1];
      WriterRun(strategy, before);
      var w := RunWriter(strategy, before);
      match last
      case DoAppend(op, now) =>
        assert last in actions;
        WriteWellFormed(w, op, now);
        SyncWellFormed(Write(w, op, now));
        assert Operations(Records(Write(w, op, now))) == Operations(Records(w)) + [op];
      case DoSync => SyncWellFormed(w);
      case DoTruncate => EmptyWellFormed();
    }
  }

  lemma AppendSyncs(count: nat, w: Wal, op: Operation, now: u64, t: nat)
    requires w.uncommitted == t % (if count == 0 then 1 else count)
    ensures SyncIfDue(EveryNEntries(count), Write(w, op, now)).uncommitted
            == (t + 1) % (if count == 0 then 1 else count)
  {
    hide Serialize;
    NextMod(t, if count == 0 then 1 else count);
  }

  /** When the writer syncs: on every append, or on exactly every `count`-th append since
      the last sync by request or truncation. */
  lemma {:induction false} SyncSchedule(strategy: SyncStrategy, actions: seq<Action>)
    ensures RunWriter(strategy, actions).uncommitted
            == if strategy.EveryWrite? then 0
               else Trailing(actions) % (if strategy.count == 0 then 1 else strategy.count)
    decreases |actions|
  {
    hide Serialize;
    if actions != [] {
      var before, last := actions[..|actions| - 1], actions[|actions| - 1];
      SyncSchedule(strategy, before);
      if last.DoAppend? && strategy.EveryNEntries? {
        AppendSyncs(strategy.count, RunWriter(strategy, before), last.op, last.now, Trailing(before));
      }
    }
  }
}
