/** Size bounds: what can be logged can be flushed. */
module TableSizes {
  import opened Bytes
  import opened Errors
  import opened WalEntries
  import opened WalRecovery
  import opened WalWriters
  import opened Layers
  import opened MemTables
  import opened SSTables

  /** Largest supported memtable limit and log size, 2^58 bytes. */
  const MAX_SIZE: nat := 0x400_0000_0000_0000

  ghost predicate Bounded(t: Table) {
    forall k <- t :: PairFits((k, t[k]))
  }

  function OperationSize(op: Operation): nat {
    match op
    case Put(key, value) => |key| + |value|
    case Delete(key) => |key|
  }

  function OperationsSize(ops: seq<Operation>): nat {
    if ops == [] then 0 else OperationsSize(ops[..|ops| - 1]) + OperationSize(ops[|ops| - 1])
  }

  lemma StorableFits(op: Operation)
    requires Storable(op)
    ensures OperationSize(op) < TOMBSTONE_MARKER
  {
    hide LE;
  }

  lemma InsertBounded(t: Table, op: Operation)
    requires Storable(op) && Bounded(t)
    ensures Bounded(Insert(t, op)) && TotalSize(Insert(t, op)) <= TotalSize(t) + OperationSize(op)
    ensures Insert(t, op) != map[]
  {
    hide Storable;
    StorableFits(op);
    match op
    case Put(key, value) =>
      TotalSizeUpdate(t, key, Live(value));
      assert key in Insert(t, op);
    case Delete(key) =>
      TotalSizeUpdate(t, key, Tombstone);
      assert key in Insert(t, op);
  }

  lemma {:induction false} ReplayBounded(ops: seq<Operation>)
    requires forall op <- ops :: Storable(op)
    ensures Bounded(Replay(map[], ops)) && TotalSize(Replay(map[], ops)) <= OperationsSize(ops)
  {
    hide Storable, Bounded, Insert;
    if ops == [] {
      assert Bounded(map[]) by { NothingBounded(); }
    } else {
      ReplayBounded(ops[..|ops| - 1]);
      InsertBounded(Replay(map[], ops[..|ops| - 1]), ops[|ops| - 1]);
    }
  }

  /** The counter from the operations alone: if no key is written twice, it is the sum of
      the lengths of all keys and values. */
  lemma {:induction false} DistinctReplaySize(ops: seq<Operation>)
    requires forall i, j | 0 <= i < j < |ops| :: ops[i].key != ops[j].key
    ensures TotalSize(Replay(map[], ops)) == OperationsSize(ops)
    ensures forall k <- Replay(map[], ops) :: exists op <- ops :: op.key == k
  {
    hide TotalSize;
    if ops == [] {
      assert TotalSize(map[]) == 0 by { NothingTotal(); }
    } else {
      var before, op := ops[..|ops| - 1], ops[|ops| - 1];
      DistinctReplaySize(before);
      assert ops == before + [op];
      TotalSizeUpdate(Replay(map[], before), op.key, if op.Put? then Live(op.value) else Tombstone);
    }
  }

  lemma NothingTotal()
    ensures TotalSize(map[]) == 0
  {
  }

  lemma NothingBounded()
    ensures Bounded(map[])
  {
  }

  // -- File size --------------------------------------------------------------

  function PairsSize(es: seq<Pair>): nat {
    if es == [] then 0 else PairsSize(es[..|es| - 1]) + EntrySize(es[|es| - 1].0, es[|es| - 1].1)
  }

  lemma {:induction false} IndexBlockAppend(index: seq<(Key, nat)>, e: (Key, nat))
    ensures |IndexBlock(index + [e])| == |IndexBlock(index)| + 12 + |e.0|
  {
    hide LE;
    if index == [] {
      assert [e][1..] == [];
      assert index + [e] == [e];
    } else {
      IndexBlockAppend(index[1..], e);
      assert (index + [e])[1..] == index[1..] + [e];
    }
  }

  lemma {:induction false} BlocksSize(es: seq<Pair>)
    ensures |DataBlock(es)| + |IndexBlock(Index(es))| <= 20 * |es| + 2 * PairsSize(es)
  {
    hide LE, IndexBlock;
    if es == [] {
      assert IndexBlock([]) == [] by { IndexBlockEnd([]); }
    } else {
      var before, last := es[..|es| - 1], es[|es| - 1];
      BlocksSize(before);
      IndexBlockAppend(Index(before), (last.0, EndOffset(before)));
    }
  }

  lemma {:induction false} PairsSizeIsTotal(es: seq<Pair>, t: Table)
    requires |es| == |t| && (forall i | 0 <= i < |es| :: es[i].0 in t && es[i].1 == t[es[i].0])
    requires forall i, j | 0 <= i < j < |es| :: es[i].0 != es[j].0
    ensures PairsSize(es) == TotalSize(t)
    decreases |es|
  {
    if es == [] {
      assert t == map[];
    } else {
      var k := es[|es| - 1].0;
      TotalSizeWithout(t, k);
      assert (t - {k}).Keys == t.Keys - {k};
      assert |(t - {k}).Keys| == |t.Keys| - 1;
      PairsSizeIsTotal(es[..|es| - 1], t - {k});
    }
  }

  /** A table of bounded entries and total size fits the file format. */
  lemma SmallTableFits(t: Table)
    requires Bounded(t) && TotalSize(t) < 2 * MAX_SIZE
    ensures TableFits(t)
  {
    hide PairFits, SortedEntries, KeyLess, Index, DataBlock, IndexBlock, LE, Crc32.Hash, TotalSize;
    var es := SortedEntries(t);
    SnapshotIsSorted(t);
    forall i, j | 0 <= i < j < |es| ensures es[i].0 != es[j].0 {
      KeyLessTotal(es[i].0, es[j].0);
    }
    PairsSizeIsTotal(es, t);
    CountBound(t);
    BlocksSize(es);
    forall p <- es ensures PairFits(p) {
      var i :| 0 <= i < |es| && es[i] == p;
      assert p == (p.0, t[p.0]);
    }
  }


  // -- What recovery can read -------------------------------------------------

  lemma ReadBlobSize(s: Bytes)
    ensures ReadBlob(s).Some? ==> 8 + |ReadBlob(s).value.0| + |ReadBlob(s).value.1| == |s|
  {
    hide FromLE;
  }

  lemma AcceptedPayload(s: Bytes)
    requires ParsePayload(s).Some?
    ensures 16 + |OperationBytes(ParsePayload(s).value.op)| <= |s|
  {
    hide FromLE, LE, ReadBlob;
    var s1 := s[8..];
    var s2 := s1[4..];
    ReadBlobSize(s2);
    if ReadBlob(s2).Some? {
      ReadBlobSize(ReadBlob(s2).value.1);
    }
  }

  /** Any record recovery accepts, however it came about, is one that could have been
      logged, and is no larger than the bytes it was read from. */
  lemma AcceptedRecord(s: Bytes)
    requires Deserialize(s).Ok?
    ensures Storable(Deserialize(s).value.op) && OperationSize(Deserialize(s).value.op) <= |s|
  {
    hide FromLE, LE, Checked, ParsePayload, Crc32.Hash;
    var data := s[16..16 + DataLength(s)];
    Widths();
    AcceptedPayload(data);
  }

  /** So the condition of the log's round trip is exact: an operation too long for the
      4-byte length field is never read back. */
  lemma RoundTripIff(e: WalEntry, rest: Bytes)
    ensures Deserialize(Serialize(e) + rest) == Ok(e) <==> Storable(e.op)
  {
    hide Deserialize, Serialize, Storable;
    if Storable(e.op) {
      SerializeRoundTrip(e, rest);
    } else if Deserialize(Serialize(e) + rest) == Ok(e) {
      AcceptedRecord(Serialize(e) + rest);
    }
  }

  lemma {:induction false} OperationsSizeFront(op: Operation, ops: seq<Operation>)
    ensures OperationsSize([op] + ops) == OperationSize(op) + OperationsSize(ops)
    decreases |ops|
  {
    if ops == [] {
      assert [op] + ops == [op] && [op][..0] == [];
    } else {
      assert ([op] + ops)[..|ops|] == [op] + ops[..|ops| - 1];
      OperationsSizeFront(op, ops[..|ops| - 1]);
    }
  }

  lemma {:induction false} ScanBounded(s: Bytes)
    ensures forall op <- Operations(Scan(s).entries) :: Storable(op)
    ensures OperationsSize(Operations(Scan(s).entries)) <= |s|
    decreases |s|
  {
    hide Deserialize, FromLE, Storable, OperationsSize, Scan;
    ScanStep(s);
    var f := ReadFront(s);
    if f.End? {
      assert OperationsSize([]) == 0 by { NoOperations(); }
    } else {
      ScanBounded(s[f.size..]);
      AcceptedRecord(s[..f.size]);
      var rest := Operations(Scan(s[f.size..]).entries);
      assert Operations(Scan(s).entries) == [f.entry.op] + rest;
      OperationsSizeFront(f.entry.op, rest);
    }
  }

  lemma NoOperations()
    ensures OperationsSize([]) == 0
  {
  }

  /** Replaying any log of at most MAX_SIZE bytes gives a table that can be flushed. */
  lemma RecoveredTableFits(file: Bytes)
    requires |file| <= MAX_SIZE
    ensures TableFits(Replay(map[], Operations(Scan(file).entries)))
  {
    hide Scan, Storable, Bounded, TableFits, Replay, OperationsSize, TotalSize;
    ScanBounded(file);
    ReplayBounded(Operations(Scan(file).entries));
    SmallTableFits(Replay(map[], Operations(Scan(file).entries)));
  }
}
