/** Reading a WAL back: the sequential reader, recovery, and what both guarantee on
    intact, torn and damaged logs. */
module WalRecovery {
  import opened Bytes
  import opened Errors
  import opened WalEntries

  // -- Specification ----------------------------------------------------------

  /** Why reading stopped: clean end of file, incomplete last record, or damage. */
  datatype Stop = AtEof | TornTail | Damaged

  /** What lies at the front of a byte string. */
  datatype Front = Record(entry: WalEntry, size: nat) | End(stop: Stop)

  function ReadFront(s: Bytes): (f: Front)
    ensures f.Record? ==> HEADER_SIZE <= f.size <= |s|
  {
    if s == [] then End(AtEof)
    else if |s| < HEADER_SIZE then End(TornTail)
    else if |s| < HEADER_SIZE + DataLength(s) then End(TornTail)
    else
      match Deserialize(s[..HEADER_SIZE + DataLength(s)])
      case Ok(e) => Record(e, HEADER_SIZE + DataLength(s))
      case Err(_) => End(Damaged)
  }

  datatype Log = Log(entries: seq<WalEntry>, stop: Stop)

  /** The records at the front of s, up to the first one that cannot be read. */
  function Scan(s: Bytes): Log
    decreases |s|
  {
    match ReadFront(s)
    case End(stop) => Log([], stop)
    case Record(e, size) =>
      var rest := Scan(s[size..]);
      Log([e] + rest.entries, rest.stop)
  }

  lemma ScanStep(s: Bytes)
    ensures var f := ReadFront(s);
      Scan(s) == if f.End? then Log([], f.stop)
                 else Log([f.entry] + Scan(s[f.size..]).entries, Scan(s[f.size..]).stop)
  {
    hide ReadFront;
  }

  datatype RecoveryResult = RecoveryResult(recovered: nat, corrupted: nat, lastLsn: nat, wasTruncated: bool)

  function LastLsn(es: seq<WalEntry>): nat {
    if es == [] then 0 else es[|es| - 1].lsn
  }

  function Statistics(log: Log): RecoveryResult {
    RecoveryResult(|log.entries|, if log.stop == Damaged then 1 else 0, LastLsn(log.entries), log.stop != AtEof)
  }

  // -- The reader and recovery, as written ------------------------------------

  class WalReader {
    const file: Bytes
    var cursor: nat
    var position: nat

    /** The reader stands in front of its next record. */
    ghost predicate Valid()
      reads this
    {
      cursor == position <= |file|
    }

    constructor (file: Bytes)
      ensures Valid() && this.file == file && position == 0
    {
      this.file := file;
      cursor := 0;
      position := 0;
    }

    /** The next `n` bytes at the cursor, which moves past them. */
    method ReadExact(n: nat) returns (s: Bytes)
      requires cursor + n <= |file|
      modifies this`cursor
      ensures s == file[old(cursor)..old(cursor) + n] && cursor == old(cursor) + n
    {
      s := file[cursor..cursor + n];
      cursor := cursor + n;
    }

    method NextEntry() returns (r: Result<Option<WalEntry>>)
      requires Valid()
      modifies this
      ensures position <= |file|
      ensures match ReadFront(file[old(position)..])
              case Record(e, size) => r == Ok(Some(e)) && position == old(position) + size && Valid()
              case End(Damaged) => r == Err(WalCorruption) && position == old(position)
              case End(stop) => r == Ok(None) && position == old(position) && (stop == AtEof <==> position == |file|)
    {
      hide Deserialize, FromLE;
      ghost var rest := file[position..];
      if position >= |file| || position + HEADER_SIZE > |file| {
        return Ok(None);
      }
      var header := ReadExact(HEADER_SIZE);
      var n := FromLE(header[12..16]);
      assert header == rest[..HEADER_SIZE];
      assert header[12..16] == rest[12..16];
      if position + HEADER_SIZE + n > |file| {
        return Ok(None);
      }
      var data := ReadExact(n);
      assert header + data == rest[..HEADER_SIZE + n];
      DeserializeErrors(header + data);
      match Deserialize(header + data)
      case Err(e) => return Err(e);
      case Ok(entry) =>
        position := position + HEADER_SIZE + n;
        return Ok(Some(entry));
    }

    method IsAtEof() returns (eof: bool)
      ensures eof <==> position >= |file|
    {
      eof := position >= |file|;
    }
  }

  lemma DeserializeErrors(s: Bytes)
    ensures Deserialize(s).Err? ==> Deserialize(s) == Err(WalCorruption)
  {
    hide FromLE, Checked, ParsePayload;
  }

  method Recover(file: Bytes) returns (entries: seq<WalEntry>, result: RecoveryResult)
    ensures entries == Scan(file).entries && result.recovered == |entries|
    ensures result.lastLsn == if entries == [] then 0 else entries[|entries| - 1].lsn
    ensures result.corrupted == (if Scan(file).stop == Damaged then 1 else 0)
    ensures result.wasTruncated <==> Scan(file).stop != AtEof
  {
    hide ReadFront, Scan;
    var reader := new WalReader(file);
    entries := [];
    var recovered, corrupted, lastLsn, wasTruncated := 0, 0, 0, false;
    assert file[0..] == file;
    while true
      invariant reader.Valid() && reader.file == file
      invariant recovered == |entries| && lastLsn == LastLsn(entries) && corrupted == 0 && !wasTruncated
      invariant Scan(file) == var rest := Scan(file[reader.position..]); Log(entries + rest.entries, rest.stop)
      decreases |file| - reader.position
    {
      ghost var rest := file[reader.position..];
      ScanStep(rest);
      var next := reader.NextEntry();
      match next
      case Ok(Some(entry)) =>
        assert rest[reader.position - (|file| - |rest|)..] == file[reader.position..];
        lastLsn := entry.lsn;
        recovered := recovered + 1;
        entries := entries + [entry];
      case Ok(None) =>
        var eof := reader.IsAtEof();
        if !eof {
          wasTruncated := true;
        }
        break;
      case Err(_) =>
        corrupted := corrupted + 1;
        wasTruncated := true;
        break;
    }
    result := RecoveryResult(recovered, corrupted, lastLsn, wasTruncated);
  }

  method Verify(file: Bytes) returns (result: RecoveryResult)
    ensures var entries := Scan(file).entries;
      && result.recovered == |entries|
      && result.lastLsn == (if entries == [] then 0 else entries[|entries| - 1].lsn)
      && result.corrupted == (if Scan(file).stop == Damaged then 1 else 0)
      && (result.wasTruncated <==> Scan(file).stop != AtEof)
  {
    hide ReadFront, Scan;
    var reader := new WalReader(file);
    var recovered, corrupted, lastLsn, wasTruncated := 0, 0, 0, false;
    ghost var seen: seq<WalEntry> := [];
    assert file[0..] == file;
    while true
      invariant reader.Valid() && reader.file == file
      invariant recovered == |seen| && lastLsn == LastLsn(seen) && corrupted == 0 && !wasTruncated
      invariant Scan(file) == var rest := Scan(file[reader.position..]); Log(seen + rest.entries, rest.stop)
      decreases |file| - reader.position
    {
      ghost var rest := file[reader.position..];
      ScanStep(rest);
      var next := reader.NextEntry();
      match next
      case Ok(Some(entry)) =>
        assert rest[reader.position - (|file| - |rest|)..] == file[reader.position..];
        lastLsn := entry.lsn;
        recovered := recovered + 1;
        seen := seen + [entry];
      case Ok(None) =>
        var eof := reader.IsAtEof();
        if !eof {
          wasTruncated := true;
        }
        break;
      case Err(_) =>
        corrupted := corrupted + 1;
        wasTruncated := true;
        break;
    }
    result := RecoveryResult(recovered, corrupted, lastLsn, wasTruncated);
  }

  // -- Intact and torn logs ---------------------------------------------------

  function EncodeAll(es: seq<WalEntry>): Bytes {
    if es == [] then [] else Serialize(es[0]) + EncodeAll(es[1..])
  }

  lemma {:induction false} EncodeAllConcat(a: seq<WalEntry>, b: seq<WalEntry>)
    ensures EncodeAll(a + b) == EncodeAll(a) + EncodeAll(b)
  {
    hide Serialize;
    if a == [] {
      assert a + b == b;
    } else {
      assert (a + b)[1..] == a[1..] + b;
      EncodeAllConcat(a[1..], b);
    }
  }

  lemma EncodeAllOne(e: WalEntry)
    ensures EncodeAll([e]) == Serialize(e)
  {
    assert [e][1..] == [];
    assert Serialize(e) + [] == Serialize(e);
  }

  /** A complete record decides what is read, whatever follows it. */
  lemma ReadFrontComplete(s: Bytes, rest: Bytes)
    requires |s| >= HEADER_SIZE && |s| == HEADER_SIZE + DataLength(s)
    ensures ReadFront(s + rest) == if Deserialize(s).Ok? then Record(Deserialize(s).value, |s|) else End(Damaged)
  {
    hide Deserialize, FromLE;
    assert (s + rest)[12..16] == s[12..16];
    assert (s + rest)[..|s|] == s;
  }

  lemma ReadFrontEncoded(e: WalEntry, rest: Bytes)
    requires Storable(e.op)
    ensures ReadFront(Serialize(e) + rest) == Record(e, |Serialize(e)|)
  {
    hide Storable, ReadFront, Deserialize, Serialize, Payload;
    IntactRecord(e);
    ReadFrontComplete(Serialize(e), rest);
    SerializeRoundTrip(e, []);
    assert Serialize(e) + [] == Serialize(e);
  }

  lemma ScanOne(e: WalEntry, rest: Bytes)
    requires Storable(e.op)
    ensures Scan(Serialize(e) + rest) == Log([e] + Scan(rest).entries, Scan(rest).stop)
  {
    hide Storable, ReadFront, Serialize, Scan;
    ReadFrontEncoded(e, rest);
    ScanStep(Serialize(e) + rest);
    assert (Serialize(e) + rest)[|Serialize(e)|..] == rest;
  }

  /** Intact records are read back in order, and reading goes on behind them. */
  lemma {:induction false} ScanEncoded(es: seq<WalEntry>, tail: Bytes)
    requires AllStorable(es)
    ensures Scan(EncodeAll(es) + tail) == Log(es + Scan(tail).entries, Scan(tail).stop)
  {
    hide Storable, ReadFront, Serialize, Scan;
    if es == [] {
      assert EncodeAll(es) + tail == tail;
    } else {
      var rest := EncodeAll(es[1..]) + tail;
      assert EncodeAll(es) + tail == Serialize(es[0]) + rest;
      ScanOne(es[0], rest);
      ScanEncoded(es[1..], tail);
      assert [es[0]] + (es[1..] + Scan(tail).entries) == es + Scan(tail).entries;
    }
  }

  /** Number of records that lie wholly within the first c bytes. */
  function WholeRecords(es: seq<WalEntry>, c: nat): (n: nat)
    ensures n <= |es|
  {
    if es == [] || c < |Serialize(es[0])| then 0
    else 1 + WholeRecords(es[1..], c - |Serialize(es[0])|)
  }

  /** WholeRecords is the largest n whose records end at or before c. */
  lemma {:induction false} WholeRecordsBounds(es: seq<WalEntry>, c: nat)
    ensures var n := WholeRecords(es, c);
      |EncodeAll(es[..n])| <= c && (n < |es| ==> c < |EncodeAll(es[..n + 1])|)
  {
    hide Storable, Serialize;
    var n := WholeRecords(es, c);
    if n == 0 {
      if es != [] {
        assert es[..1] == [es[0]];
        EncodeAllOne(es[0]);
      }
    } else {
      WholeRecordsBounds(es[1..], c - |Serialize(es[0])|);
      assert es[..n][1..] == es[1..][..n - 1];
      if n < |es| {
        assert es[..n + 1][1..] == es[1..][..n];
      }
    }
  }

  lemma TornRecord(e: WalEntry, k: nat)
    requires Storable(e.op) && 0 < k < |Serialize(e)|
    ensures Scan(Serialize(e)[..k]) == Log([], TornTail)
  {
    hide Storable, LE, FromLE, Deserialize, Serialize, Payload;
    IntactRecord(e);
    if k >= HEADER_SIZE {
      assert Serialize(e)[..k][12..16] == Serialize(e)[12..16];
    }
  }

  /** A cut splits a log into whole records and a piece of at most one more. */
  lemma CutSplits(es: seq<WalEntry>, c: nat)
    requires c <= |EncodeAll(es)|
    ensures var n := WholeRecords(es, c);
      var k := c - |EncodeAll(es[..n])|;
      && k >= 0 && (k > 0 ==> n < |es| && k < |Serialize(es[n])|)
      && EncodeAll(es)[..c] == EncodeAll(es[..n]) + (if k == 0 then [] else Serialize(es[n])[..k])
  {
    hide Storable, Serialize, WholeRecords;
    var n := WholeRecords(es, c);
    WholeRecordsBounds(es, c);
    assert es == es[..n] + es[n..];
    EncodeAllConcat(es[..n], es[n..]);
    if n < |es| {
      assert es[..n + 1] == es[..n] + [es[n]];
      EncodeAllConcat(es[..n], [es[n]]);
      EncodeAllOne(es[n]);
    }
  }

  /** For every log and every byte cut of it, recovery yields exactly the records
      wholly before the cut, and reports a torn tail exactly off record boundaries. */
  lemma RecoverCut(es: seq<WalEntry>, c: nat)
    requires AllStorable(es) && c <= |EncodeAll(es)|
    ensures var log, n := Scan(EncodeAll(es)[..c]), WholeRecords(es, c);
      && log.entries == es[..n]
      && log.stop == (if c == |EncodeAll(es[..n])| then AtEof else TornTail)
      && Statistics(log) == RecoveryResult(n, 0, if n == 0 then 0 else es[n - 1].lsn, c != |EncodeAll(es[..n])|)
  {
    hide Storable, Serialize, EncodeAll, WholeRecords, Scan;
    var n := WholeRecords(es, c);
    CutSplits(es, c);
    var k := c - |EncodeAll(es[..n])|;
    if k == 0 {
      ScanStep([]);
      ScanEncoded(es[..n], []);
    } else {
      TornRecord(es[n], k);
      ScanEncoded(es[..n], Serialize(es[n])[..k]);
    }
  }

  /** One changed byte in one record, outside that record's length field, ends
      recovery exactly before that record and is counted as one corruption. */
  lemma RecoverDamaged(pre: seq<WalEntry>, e: WalEntry, post: seq<WalEntry>, i: nat, b: byte)
    requires AllStorable(pre) && Storable(e.op)
    requires i < |Serialize(e)| && !(12 <= i < 16) && Serialize(e)[i] != b
    ensures var file := EncodeAll(pre + [e] + post);
      var at := |EncodeAll(pre)| + i;
      && at < |file| && file[at] == Serialize(e)[i]
      && Scan(file[at := b]) == Log(pre, Damaged)
      && Statistics(Scan(file[at := b]))
         == RecoveryResult(|pre|, 1, if pre == [] then 0 else pre[|pre| - 1].lsn, true)
  {
    hide Storable, Serialize, Deserialize, Scan, EncodeAll;
    var bad, rest := Serialize(e)[i := b], EncodeAll(post);
    EncodeAllConcat(pre + [e], post);
    EncodeAllConcat(pre, [e]);
    EncodeAllOne(e);
    var file := EncodeAll(pre + [e] + post);
    assert file == EncodeAll(pre) + (Serialize(e) + rest);
    assert file[|EncodeAll(pre)| + i := b] == EncodeAll(pre) + (bad + rest);
    ScanEncoded(pre, bad + rest);
    DamagedFront(e, i, b, rest);
  }

  lemma DamagedFront(e: WalEntry, i: nat, b: byte, rest: Bytes)
    requires Storable(e.op)
    requires i < |Serialize(e)| && !(12 <= i < 16) && Serialize(e)[i] != b
    ensures Scan(Serialize(e)[i := b] + rest) == Log([], Damaged)
  {
    hide Storable, Serialize, Deserialize, Payload, Scan, ReadFront;
    var bad := Serialize(e)[i := b];
    IntactRecord(e);
    SingleByteDamageDetected(e, i, b);
    ReadFrontComplete(bad, rest);
    ScanStep(bad + rest);
  }

  // -- Arbitrary bytes --------------------------------------------------------

  /** A byte string that is exactly one acceptable record. */
  predicate Acceptable(chunk: Bytes) {
    |chunk| >= HEADER_SIZE && |chunk| == HEADER_SIZE + DataLength(chunk) && Deserialize(chunk).Ok?
  }

  function Flatten(chunks: seq<Bytes>): Bytes {
    if chunks == [] then [] else chunks[0] + Flatten(chunks[1..])
  }

  ghost predicate Reads(chunks: seq<Bytes>, es: seq<WalEntry>) {
    && |chunks| == |es|
    && forall i | 0 <= i < |es| :: Acceptable(chunks[i]) && Deserialize(chunks[i]) == Ok(es[i])
  }

  /** On any bytes at all, the recovered records are the decoding of a prefix of the file ... */
  lemma {:induction false} ScanReads(s: Bytes) returns (chunks: seq<Bytes>)
    ensures Flatten(chunks) <= s && Reads(chunks, Scan(s).entries)
    ensures ReadFront(s[|Flatten(chunks)|..]) == End(Scan(s).stop)
    decreases |s|
  {
    hide Storable, Deserialize, FromLE;
    match ReadFront(s)
    case End(_) =>
      chunks := [];
      assert s[0..] == s;
    case Record(e, size) =>
      var chunk := s[..size];
      assert chunk[12..16] == s[12..16];
      var rest := ScanReads(s[size..]);
      chunks := [chunk] + rest;
      assert chunks[1..] == rest;
      assert s == chunk + s[size..];
      assert s[|Flatten(chunks)|..] == s[size..][|Flatten(rest)|..];
  }

  /** ... and no longer run of acceptable records starts the file. */
  lemma {:induction false} ScanMaximal(s: Bytes, chunks: seq<Bytes>, es: seq<WalEntry>)
    requires Flatten(chunks) <= s && Reads(chunks, es)
    ensures es <= Scan(s).entries
    decreases |chunks|
  {
    hide Storable, Deserialize, FromLE, ReadFront, Scan;
    if chunks != [] {
      var chunk, rest := chunks[0], s[|chunks[0]|..];
      assert s == chunk + rest;
      ReadFrontComplete(chunk, rest);
      ScanStep(s);
      assert Flatten(chunks[1..]) <= rest;
      ScanMaximal(rest, chunks[1..], es[1..]);
      assert es == [es[0]] + es[1..];
    }
  }

  /** A shorter file never shows other records, only fewer. */
  lemma ScanPrefix(s: Bytes, c: nat)
    requires c <= |s|
    ensures Scan(s[..c]).entries <= Scan(s).entries
  {
    hide Storable, Deserialize, FromLE, ReadFront, Scan;
    var chunks := ScanReads(s[..c]);
    ScanMaximal(s, chunks, Scan(s[..c]).entries);
  }
}
