/** Immutable table files: byte layout, builder, reader and iterator. */
module SSTables {
  import opened Bytes
  import opened Errors
  import opened Layers
  import opened MemTables
  import Crc32

  const MAGIC: Bytes := [0x41, 0x54, 0x4B, 0x56]
  const VERSION: nat := 1
  const HEADER_SIZE: nat := 14
  const FOOTER_SIZE: nat := 16
  const TOMBSTONE_MARKER: nat := 0xFFFF_FFFF

  type Pair = (Key, Entry)

  // -- Layout -----------------------------------------------------------------

  function ValueLength(e: Entry): nat {
    match e
    case Live(value) => |value|
    case Tombstone => TOMBSTONE_MARKER
  }

  function ValueBytes(e: Entry): Bytes {
    match e
    case Live(value) => value
    case Tombstone => []
  }

  function EntryBytes(p: Pair): Bytes {
    LE(|p.0|, W4) + (LE(ValueLength(p.1), W4) + (p.0 + ValueBytes(p.1)))
  }

  function DataBlock(es: seq<Pair>): Bytes {
    if es == [] then [] else DataBlock(es[..|es| - 1]) + EntryBytes(es[|es| - 1])
  }

  /** File offset at which these entries end and the next one would start. */
  function EndOffset(es: seq<Pair>): nat {
    HEADER_SIZE + |DataBlock(es)|
  }

  function IndexEntryBytes(key: Key, offset: nat): Bytes {
    LE(|key|, W4) + (LE(offset, W8) + key)
  }

  /** The keys with their entries' offsets, in file order. */
  function Index(es: seq<Pair>): (index: seq<(Key, nat)>)
    ensures |index| == |es|
  {
    if es == [] then [] else
      var before := es[..|es| - 1];
      Index(before) + [(es[|es| - 1].0, EndOffset(before))]
  }

  function IndexBlock(index: seq<(Key, nat)>): Bytes {
    if index == [] then [] else IndexEntryBytes(index[0].0, index[0].1) + IndexBlock(index[1..])
  }

  function Header(count: nat): Bytes {
    MAGIC + LE(VERSION, W2) + LE(count, W8)
  }

  function Footer(es: seq<Pair>): Bytes {
    LE(EndOffset(es), W8) + (LE(Crc32.Hash(DataBlock(es)), W4) + [0, 0, 0, 0])
  }

  function TableFile(es: seq<Pair>): Bytes {
    Header(|es|) + (DataBlock(es) + (IndexBlock(Index(es)) + Footer(es)))
  }

  // -- Builder ----------------------------------------------------------------

  class SSTableBuilder {
    var file: Bytes
    var entryCount: nat
    var currentOffset: nat
    var index: seq<(Key, nat)>
    var minKey: Option<Key>
    var maxKey: Option<Key>
    var dataHasher: Crc32.Register
    ghost var entries: seq<Pair>

    ghost predicate Valid()
      reads this
    {
      && file == Header(0) + DataBlock(entries)
      && entryCount == |entries|
      && currentOffset == EndOffset(entries)
      && index == Index(entries)
      && minKey == (if entries == [] then None else Some(entries[0].0))
      && maxKey == (if entries == [] then None else Some(entries[|entries| - 1].0))
      && dataHasher == Crc32.Update(Crc32.ONES, DataBlock(entries))
    }

    constructor ()
      ensures Valid() && entries == []
    {
      file := MAGIC + LE(VERSION, W2) + LE(0, W8);
      entryCount := 0;
      currentOffset := HEADER_SIZE;
      index := [];
      minKey, maxKey := None, None;
      dataHasher := Crc32.ONES;
      entries := [];
    }

    method WriteEntry(key: Key, value: Entry)
      requires Valid()
      modifies this
      ensures Valid() && entries == old(entries) + [(key, value)]
    {
      hide EntryBytes, Crc32.Update, DataBlock, Index, Header, ValueLength, EndOffset;
      ghost var p := (key, value);
      Appended(entries, p);
      Crc32.UpdateConcat(Crc32.ONES, DataBlock(entries), EntryBytes(p));
      AppendToFile(Header(0), DataBlock(entries), EntryBytes(p));
      index := index + [(key, currentOffset)];
      if minKey.None? {
        minKey := Some(key);
      }
      maxKey := Some(key);
      var entrySize := WriteEntryBytes(key, value);
      assert EndOffset(entries + [p]) == EndOffset(entries) + entrySize by {
        NextOffset(entries, p);
      }
      currentOffset := currentOffset + entrySize;
      entryCount := entryCount + 1;
      entries := entries + [p];
    }

    /** Write one entry chunk by chunk, feeding the running checksum. */
    method WriteEntryBytes(key: Key, value: Entry) returns (entrySize: nat)
      modifies this`file, this`dataHasher
      ensures file == old(file) + EntryBytes((key, value))
      ensures dataHasher == Crc32.Update(old(dataHasher), EntryBytes((key, value)))
      ensures entrySize == |EntryBytes((key, value))|
    {
      hide LE, Crc32.Update;
      var keyLength := LE(|key|, W4);
      var valueLength := LE(ValueLength(value), W4);
      ChunksWritten(file, keyLength, valueLength, key, ValueBytes(value));
      ChunksHashed(dataHasher, keyLength, valueLength, key, ValueBytes(value));
      WriteChunk(keyLength);
      WriteChunk(valueLength);
      WriteChunk(key);
      entrySize := 8 + |key|;
      match value
      case Live(v) =>
        WriteChunk(v);
        entrySize := entrySize + |v|;
      case Tombstone =>
        UpdateNothing(dataHasher);
        assert file + [] == file;
    }

    /** Write some bytes of the data block and feed them to the running checksum. */
    method WriteChunk(chunk: Bytes)
      modifies this`file, this`dataHasher
      ensures file == old(file) + chunk && dataHasher == Crc32.Update(old(dataHasher), chunk)
    {
      file := file + chunk;
      dataHasher := Crc32.Update(dataHasher, chunk);
    }

    /** If the entries come in key order, the recorded keys are the smallest and the largest. */
    lemma KeyRange()
      requires Valid() && entries != [] && Sorted(entries)
      ensures minKey.Some? && forall p <- entries :: p.0 == minKey.value || Precedes(minKey.value, p.0)
      ensures maxKey.Some? && forall p <- entries :: p.0 == maxKey.value || Precedes(p.0, maxKey.value)
    {
      hide KeyLess, Precedes, DataBlock, Index, Crc32.Update, Header;
      forall p <- entries
        ensures p.0 == minKey.value || Precedes(minKey.value, p.0)
        ensures p.0 == maxKey.value || Precedes(p.0, maxKey.value) {
        var i :| 0 <= i < |entries| && entries[i] == p;
        KeyLessIsPrecedes(entries[0].0, p.0);
        KeyLessIsPrecedes(p.0, entries[|entries| - 1].0);
      }
    }

    /** Index block, footer, then the entry count patched into the header. */
    method Finish() returns (image: Bytes)
      requires Valid()
      ensures image == TableFile(entries)
    {
      hide LE, Crc32.Update, Crc32.Finalize, DataBlock, IndexBlock, Index;
      var out := file;
      ghost var block := IndexBlock(index);
      var i := 0;
      assert index[0..] == index;
      while i < |index|
        invariant 0 <= i <= |index|
        invariant out + IndexBlock(index[i..]) == file + block
      {
        IndexBlockStep(index, i);
        ghost var next := IndexEntryBytes(index[i].0, index[i].1);
        assert out + (next + IndexBlock(index[i + 1..])) == out + next + IndexBlock(index[i + 1..]);
        out := out + IndexEntryBytes(index[i].0, index[i].1);
        i := i + 1;
      }
      IndexBlockEnd(index);
      assert out == file + block;
      var dataCrc := Crc32.Finalize(dataHasher);
      out := out + LE(currentOffset, W8) + LE(dataCrc, W4) + [0, 0, 0, 0];
      image := out[..6] + LE(entryCount, W8) + out[14..];
      Patched(MAGIC + LE(VERSION, W2), LE(0, W8), LE(entryCount, W8), DataBlock(entries), block,
              LE(currentOffset, W8), LE(dataCrc, W4), [0, 0, 0, 0]);
    }
  }

  lemma Appended(es: seq<Pair>, p: Pair)
    ensures DataBlock(es + [p]) == DataBlock(es) + EntryBytes(p)
    ensures Index(es + [p]) == Index(es) + [(p.0, EndOffset(es))]
  {
    hide EntryBytes;
    assert (es + [p])[..|es|] == es;
  }

  lemma NextOffset(es: seq<Pair>, p: Pair)
    ensures EndOffset(es + [p]) == EndOffset(es) + |EntryBytes(p)|
  {
    hide EntryBytes, DataBlock;
    Appended(es, p);
  }

  /** Overwriting the 8 count bytes of a finished file. */
  lemma Patched(head: Bytes, zero: Bytes, count: Bytes, data: Bytes, block: Bytes, a: Bytes, b: Bytes, c: Bytes)
    requires |head| == 6 && |zero| == |count| == 8
    ensures var out := head + zero + data + block + a + b + c;
      |out| >= 14 && out[..6] + count + out[14..] == head + count + (data + (block + (a + (b + c))))
  {
    var out := head + zero + data + block + a + b + c;
    assert out[14..] == data + block + a + b + c;
  }

  lemma UpdateNothing(c: Crc32.Register)
    ensures Crc32.Update(c, []) == c
  {
  }

  lemma AppendToFile(a: Bytes, b: Bytes, c: Bytes)
    ensures (a + b) + c == a + (b + c)
  {
  }

  lemma ChunksWritten(file: Bytes, a: Bytes, b: Bytes, k: Bytes, v: Bytes)
    ensures file + a + b + k + v == file + (a + (b + (k + v)))
  {
  }

  lemma ChunksHashed(c: Crc32.Register, a: Bytes, b: Bytes, k: Bytes, v: Bytes)
    ensures Crc32.Update(Crc32.Update(Crc32.Update(Crc32.Update(c, a), b), k), v)
            == Crc32.Update(c, a + (b + (k + v)))
  {
    hide Crc32.Update;
    Crc32.UpdateConcat(c, a, b + (k + v));
    Crc32.UpdateConcat(Crc32.Update(c, a), b, k + v);
    Crc32.UpdateConcat(Crc32.Update(Crc32.Update(c, a), b), k, v);
  }

  lemma IndexBlockStep(index: seq<(Key, nat)>, i: nat)
    requires i < |index|
    ensures IndexBlock(index[i..]) == IndexEntryBytes(index[i].0, index[i].1) + IndexBlock(index[i + 1..])
  {
    hide IndexEntryBytes;
    assert index[i..][1..] == index[i + 1..];
  }

  lemma IndexBlockEnd(index: seq<(Key, nat)>)
    ensures IndexBlock(index[|index|..]) == []
  {
  }

  // -- Reader -----------------------------------------------------------------

  /** What opening a file loads into memory. */
  datatype Meta = Meta(index: map<Key, nat>, entryCount: nat, indexOffset: nat)

  /** The index entries at the front of s, inserted into m; a partial one ends it. */
  function ParseIndex(s: Bytes, m: map<Key, nat>): map<Key, nat>
    decreases |s|
  {
    if |s| < 12 then m else
      var n := FromLE(s[..4]);
      if |s| < 12 + n then m else ParseIndex(s[12 + n..], m[s[12..12 + n] := FromLE(s[4..12])])
  }

  function ParseTable(file: Bytes): Result<Meta> {
    if |file| < HEADER_SIZE then Err(Io)
    else if file[..4] != MAGIC then Err(Storage)
    else if FromLE(file[4..6]) != VERSION then Err(Storage)
    else if |file| < FOOTER_SIZE then Err(Io)
    else
      var footer := file[|file| - FOOTER_SIZE..];
      var indexOffset := FromLE(footer[..8]);
      if indexOffset > |file| - FOOTER_SIZE then Err(Overflow)
      else Ok(Meta(ParseIndex(file[indexOffset..|file| - FOOTER_SIZE], map[]), FromLE(file[6..14]), indexOffset))
  }

  /** What a point read finds at the front of s; the key bytes are skipped unread. */
  function EntryAtFront(s: Bytes): Result<Entry> {
    if |s| < 8 then Err(Io) else
      var n, m := FromLE(s[..4]), FromLE(s[4..8]);
      if m == TOMBSTONE_MARKER then Ok(Tombstone)
      else if |s| < 8 + n + m then Err(Io)
      else Ok(Live(s[8 + n..8 + n + m]))
  }

  function EntryAt(file: Bytes, offset: nat): Result<Entry> {
    if offset > |file| then Err(Io) else EntryAtFront(file[offset..])
  }

  function TableGet(file: Bytes, index: map<Key, nat>, key: Key): Result<Option<Value>> {
    if key !in index then Err(KeyNotFound) else
      match EntryAt(file, index[key])
      case Err(e) => Err(e)
      case Ok(e) => Ok(EntryValue(e))
  }

  class SSTableReader {
    const file: Bytes
    const index: map<Key, nat>
    const entryCount: nat
    const indexOffset: nat
    var cursor: nat

    constructor (file: Bytes, meta: Meta)
      ensures this.file == file && index == meta.index
      ensures entryCount == meta.entryCount && indexOffset == meta.indexOffset
    {
      this.file := file;
      index, entryCount, indexOffset := meta.index, meta.entryCount, meta.indexOffset;
      cursor := 0;
    }

    /** Reads at the cursor, which may have been moved past the end of the file. */
    method ReadExact(n: nat) returns (r: Result<Bytes>)
      modifies this
      ensures r == if old(cursor) + n <= |file| then Ok(file[old(cursor)..old(cursor) + n]) else Err(Io)
      ensures r.Ok? ==> cursor == old(cursor) + n
    {
      if cursor + n > |file| {
        return Err(Io);
      }
      r := Ok(file[cursor..cursor + n]);
      cursor := cursor + n;
    }

    /** The answer depends on the file alone, not on where the cursor was left. */
    method Get(key: Key) returns (r: Result<Option<Value>>)
      modifies this
      ensures r == TableGet(file, index, key)
    {
      hide FromLE;
      if key !in index {
        return Err(KeyNotFound);
      }
      cursor := index[key];
      ghost var s := if cursor <= |file| then file[cursor..] else [];
      var header := ReadExact(8);
      if header.Err? {
        return Err(Io);
      }
      assert header.value == s[..8];
      var keyLength := FromLE(header.value[..4]);
      var valueLength := FromLE(header.value[4..8]);
      assert s[..8][..4] == s[..4] && s[..8][4..8] == s[4..8];
      cursor := cursor + keyLength;
      if valueLength == TOMBSTONE_MARKER {
        return Ok(None);
      }
      var value := ReadExact(valueLength);
      if value.Err? {
        return Err(Io);
      }
      assert value.value == s[8 + keyLength..8 + keyLength + valueLength];
      r := Ok(Some(value.value));
    }

    function MinKey(): Option<Key> {
      if index.Keys == {} then None else Some(SortedKeys(index.Keys)[0])
    }

    function MaxKey(): Option<Key> {
      if index.Keys == {} then None else Some(SortedKeys(index.Keys)[|index.Keys| - 1])
    }

    predicate MightContain(key: Key) {
      match (MinKey(), MaxKey())
      case (Some(min), Some(max)) => !KeyLess(key, min) && !KeyLess(max, key)
      case _ => false
    }

    /** The smallest and the largest key of the index, in the order of first differences. */
    lemma MinMaxKeys()
      ensures MinKey().None? <==> index == map[]
      ensures MaxKey().None? <==> index == map[]
      ensures MinKey().Some? ==> var min := MinKey().value;
        min in index && forall k <- index :: k == min || Precedes(min, k)
      ensures MaxKey().Some? ==> var max := MaxKey().value;
        max in index && forall k <- index :: k == max || Precedes(k, max)
    {
      hide SortedKeys, KeyLess, Precedes;
      var keys := SortedKeys(index.Keys);
      assert index.Keys == {} <==> index == map[];
      if index != map[] {
        assert keys[0] in keys && keys[|keys| - 1] in keys;
        forall k <- index
          ensures (k == keys[0] || Precedes(keys[0], k)) && (k == keys[|keys| - 1] || Precedes(k, keys[|keys| - 1])) {
          var i :| 0 <= i < |keys| && keys[i] == k;
          KeyLessIsPrecedes(keys[0], k);
          KeyLessIsPrecedes(k, keys[|keys| - 1]);
        }
      }
    }

    /** The range filter admits exactly the keys between two keys of the table. */
    lemma MightContainIff(key: Key)
      ensures MightContain(key)
              <==> exists a <- index, b <- index :: (a == key || Precedes(a, key)) && (b == key || Precedes(key, b))
    {
      hide SortedKeys, KeyLess, Precedes, MinKey, MaxKey;
      MinMaxKeys();
      if index != map[] {
        var min, max := MinKey().value, MaxKey().value;
        KeyLessTotal(key, min);
        KeyLessTotal(max, key);
        KeyLessIsPrecedes(min, key);
        KeyLessIsPrecedes(key, max);
        if !MightContain(key) {
          forall a <- index, b <- index ensures !((a == key || Precedes(a, key)) && (b == key || Precedes(key, b))) {
            OutsideRange(min, max, a, b, key);
          }
        }
      }
    }

    /** The range filter never hides a key the table has. */
    lemma MightContainKeys(key: Key)
      requires key in index
      ensures MightContain(key)
    {
      hide SortedKeys, KeyLess;
      var keys := SortedKeys(index.Keys);
      var i :| 0 <= i < |keys| && keys[i] == key;
      KeyLessTotal(key, keys[0]);
      KeyLessTotal(keys[|keys| - 1], key);
    }
  }

  lemma OutsideRange(min: Key, max: Key, a: Key, b: Key, key: Key)
    requires a == min || Precedes(min, a)
    requires b == max || Precedes(b, max)
    requires KeyLess(key, min) || KeyLess(max, key)
    ensures !((a == key || Precedes(a, key)) && (b == key || Precedes(key, b)))
  {
    hide KeyLess, Precedes;
    KeyLessIsPrecedes(min, a);
    KeyLessIsPrecedes(b, max);
    KeyLessIsPrecedes(a, key);
    KeyLessIsPrecedes(key, b);
    KeyLessTotal(key, a);
    KeyLessTotal(key, b);
    if KeyLess(key, min) {
      if a != min {
        KeyLessTransitive(key, min, a);
      }
    } else if b != max {
      KeyLessTransitive(b, max, key);
    }
  }

  method OpenTable(file: Bytes) returns (r: Result<SSTableReader>)
    ensures r.Ok? <==> ParseTable(file).Ok?
    ensures r.Ok? ==> fresh(r.value) && r.value.file == file
                      && ParseTable(file) == Ok(Meta(r.value.index, r.value.entryCount, r.value.indexOffset))
    ensures r.Err? ==> r.error == ParseTable(file).error
  {
    hide FromLE;
    if |file| < HEADER_SIZE {
      return Err(Io);
    }
    var header := file[..HEADER_SIZE];
    assert header[..4] == file[..4] && header[4..6] == file[4..6] && header[6..14] == file[6..14];
    if header[0..4] != MAGIC {
      return Err(Storage);
    }
    if FromLE(header[4..6]) != VERSION {
      return Err(Storage);
    }
    var entryCount := FromLE(header[6..14]);
    if |file| < FOOTER_SIZE {
      return Err(Io);
    }
    var footer := file[|file| - FOOTER_SIZE..];
    var indexOffset := FromLE(footer[..8]);
    if indexOffset > |file| - FOOTER_SIZE {
      return Err(Overflow);
    }
    var index := LoadIndex(file[indexOffset..|file| - FOOTER_SIZE]);
    var reader := new SSTableReader(file, Meta(index, entryCount, indexOffset));
    r := Ok(reader);
  }

  /** The index parsing loop of `open`. */
  method LoadIndex(data: Bytes) returns (index: map<Key, nat>)
    ensures index == ParseIndex(data, map[])
  {
    hide FromLE;
    index := map[];
    var pos := 0;
    assert data[0..] == data;
    while pos < |data|
      invariant 0 <= pos <= |data|
      invariant ParseIndex(data, map[]) == ParseIndex(data[pos..], index)
    {
      ghost var s := data[pos..];
      if pos + 4 > |data| {
        break;
      }
      var keyLength := FromLE(data[pos..pos + 4]);
      assert data[pos..pos + 4] == s[..4];
      pos := pos + 4;
      if pos + 8 > |data| {
        break;
      }
      var offset := FromLE(data[pos..pos + 8]);
      assert data[pos..pos + 8] == s[4..12];
      pos := pos + 8;
      if pos + keyLength > |data| {
        break;
      }
      var key := data[pos..pos + keyLength];
      assert key == s[12..12 + keyLength];
      pos := pos + keyLength;
      assert data[pos..] == s[12 + keyLength..];
      index := index[key := offset];
    }
  }

  // -- Iterator ---------------------------------------------------------------

  datatype Step = Stop | Fail | Item(pair: Pair, size: nat)

  /** What the iterator reads at the front of s. */
  function StepAtFront(s: Bytes): (r: Step)
    ensures r.Item? ==> 8 <= r.size <= |s|
  {
    if |s| < 8 then Fail else
      var n, m := FromLE(s[..4]), FromLE(s[4..8]);
      if |s| < 8 + n then Fail
      else if m == TOMBSTONE_MARKER then Item((s[8..8 + n], Tombstone), 8 + n)
      else if |s| < 8 + n + m then Fail
      else Item((s[8..8 + n], Live(s[8 + n..8 + n + m])), 8 + n + m)
  }

  function StepAt(file: Bytes, offset: nat, end: nat): Step {
    if offset >= end then Stop
    else if offset > |file| then Fail
    else StepAtFront(file[offset..])
  }

  class SSTableIterator {
    const reader: SSTableReader
    const endOffset: nat
    var currentOffset: nat

    ghost predicate Valid()
      reads this, reader
    {
      reader.cursor == currentOffset
    }

    constructor (reader: SSTableReader)
      modifies reader
      ensures Valid() && this.reader == reader && endOffset == reader.indexOffset && currentOffset == HEADER_SIZE
    {
      this.reader := reader;
      endOffset := reader.indexOffset;
      currentOffset := HEADER_SIZE;
      new;
      reader.cursor := HEADER_SIZE;
    }

    method Next() returns (r: Option<Result<Pair>>)
      requires Valid()
      modifies this, reader
      ensures var step := StepAt(reader.file, old(currentOffset), endOffset);
        && (step.Stop? ==> r == None && currentOffset == old(currentOffset) && Valid())
        && (step.Fail? ==> r == Some(Err(Io)))
        && (step.Item? ==> r == Some(Ok(step.pair)) && currentOffset == old(currentOffset) + step.size && Valid())
    {
      hide FromLE;
      if currentOffset >= endOffset {
        return None;
      }
      ghost var s := if currentOffset <= |reader.file| then reader.file[currentOffset..] else [];
      var header := reader.ReadExact(8);
      if header.Err? {
        return Some(Err(Io));
      }
      assert header.value == s[..8];
      var keyLength := FromLE(header.value[..4]);
      var valueLength := FromLE(header.value[4..8]);
      assert s[..8][..4] == s[..4] && s[..8][4..8] == s[4..8];
      var key := reader.ReadExact(keyLength);
      if key.Err? {
        return Some(Err(Io));
      }
      SliceOfSuffix(reader.file, currentOffset, 8, 8 + keyLength);
      var entrySize := 8 + keyLength;
      var entry := Tombstone;
      if valueLength != TOMBSTONE_MARKER {
        var value := reader.ReadExact(valueLength);
        if value.Err? {
          return Some(Err(Io));
        }
        SliceOfSuffix(reader.file, old(currentOffset), 8 + keyLength, 8 + keyLength + valueLength);
        entrySize := entrySize + valueLength;
        entry := Live(value.value);
      }
      currentOffset := currentOffset + entrySize;
      r := Some(Ok((key.value, entry)));
    }
  }

  // -- Round trip -------------------------------------------------------------

  /** Lengths and offsets fit the fields that store them, and no value length is
      mistaken for the tombstone marker. */
  predicate PairFits(p: Pair) {
    |p.0| < U32 && |ValueBytes(p.1)| < TOMBSTONE_MARKER
  }

  predicate Fits(es: seq<Pair>) {
    (forall p <- es :: PairFits(p)) && |TableFile(es)| < U64
  }

  ghost predicate Sorted(es: seq<Pair>) {
    forall i, j | 0 <= i < j < |es| :: KeyLess(es[i].0, es[j].0)
  }

  lemma EntryParts(a: Bytes, b: Bytes, k: Bytes, v: Bytes, rest: Bytes)
    requires |a| == |b| == 4
    ensures var s := a + (b + (k + v)) + rest;
      && |s| == 8 + |k| + |v| + |rest| && s[..4] == a && s[4..8] == b
      && s[8..8 + |k|] == k && s[8 + |k|..8 + |k| + |v|] == v
  {
  }

  /** An entry is read back by both read paths, whatever follows it. */
  lemma EntryRoundTrip(p: Pair, rest: Bytes)
    requires PairFits(p)
    ensures EntryAtFront(EntryBytes(p) + rest) == Ok(p.1)
    ensures StepAtFront(EntryBytes(p) + rest) == Item(p, |EntryBytes(p)|)
  {
    hide LE, FromLE;
    var a, b := LE(|p.0|, W4), LE(ValueLength(p.1), W4);
    EntryParts(a, b, p.0, ValueBytes(p.1), rest);
    DecodeEncodeLE4(|p.0|);
    DecodeEncodeLE4(ValueLength(p.1));
  }

  lemma {:induction false} DataBlockSplit(es: seq<Pair>, i: nat) returns (rest: Bytes)
    requires i < |es|
    ensures DataBlock(es) == DataBlock(es[..i]) + (EntryBytes(es[i]) + rest)
    decreases |es|
  {
    hide EntryBytes;
    var before, last := es[..|es| - 1], es[|es| - 1];
    if i == |es| - 1 {
      rest := [];
      assert EntryBytes(last) + [] == EntryBytes(last);
    } else {
      var r := DataBlockSplit(before, i);
      assert before[..i] == es[..i];
      rest := r + EntryBytes(last);
      assert DataBlock(es[..i]) + (EntryBytes(es[i]) + r) + EntryBytes(last)
          == DataBlock(es[..i]) + (EntryBytes(es[i]) + rest);
    }
  }

  lemma HeaderLength(count: nat)
    ensures |Header(count)| == HEADER_SIZE
  {
  }

  lemma SuffixFrom(h: Bytes, d: Bytes, e: Bytes, rest: Bytes, tail: Bytes)
    ensures (h + (d + (e + rest) + tail))[|h| + |d|..] == e + (rest + tail)
  {
    assert h + (d + (e + rest) + tail) == (h + d) + (e + (rest + tail));
  }

  /** Where entry i starts, the file continues with that entry. */
  lemma EntryLocated(es: seq<Pair>, i: nat) returns (rest: Bytes)
    requires i < |es|
    ensures EndOffset(es[..i]) <= |TableFile(es)|
    ensures TableFile(es)[EndOffset(es[..i])..] == EntryBytes(es[i]) + rest
  {
    hide EntryBytes, DataBlock, Header, IndexBlock, Index, Footer;
    HeaderLength(|es|);
    var r := DataBlockSplit(es, i);
    var tail := IndexBlock(Index(es)) + Footer(es);
    SuffixFrom(Header(|es|), DataBlock(es[..i]), EntryBytes(es[i]), r, tail);
    rest := r + tail;
  }

  lemma {:induction false} IndexContents(es: seq<Pair>, i: nat)
    requires i < |es|
    ensures Index(es)[i] == (es[i].0, EndOffset(es[..i]))
    decreases |es|
  {
    hide DataBlock;
    var before := es[..|es| - 1];
    if i < |es| - 1 {
      IndexContents(before, i);
      assert before[..i] == es[..i];
    }
  }

  function InsertAll(m: map<Key, nat>, index: seq<(Key, nat)>): map<Key, nat>
    decreases |index|
  {
    if index == [] then m else InsertAll(m[index[0].0 := index[0].1], index[1..])
  }

  lemma IndexEntryRoundTrip(key: Key, offset: nat, rest: Bytes, m: map<Key, nat>)
    requires |key| < U32 && offset < U64
    ensures ParseIndex(IndexEntryBytes(key, offset) + rest, m) == ParseIndex(rest, m[key := offset])
  {
    hide LE, FromLE;
    var a, b := LE(|key|, W4), LE(offset, W8);
    var s := IndexEntryBytes(key, offset) + rest;
    DecodeEncodeLE4(|key|);
    DecodeEncodeLE8(offset);
    assert s[..4] == a && s[4..12] == b;
    assert s[12..12 + |key|] == key && s[12 + |key|..] == rest;
  }

  lemma {:induction false} IndexBlockRoundTrip(index: seq<(Key, nat)>, m: map<Key, nat>)
    requires forall e <- index :: |e.0| < U32 && e.1 < U64
    ensures ParseIndex(IndexBlock(index), m) == InsertAll(m, index)
    decreases |index|
  {
    hide IndexEntryBytes, FromLE;
    if index != [] {
      IndexEntryRoundTrip(index[0].0, index[0].1, IndexBlock(index[1..]), m);
      IndexBlockRoundTrip(index[1..], m[index[0].0 := index[0].1]);
    }
  }

  /** With distinct keys, the loaded index maps each key to its own offset and has no others. */
  lemma {:induction false} InsertAllDistinct(m: map<Key, nat>, index: seq<(Key, nat)>)
    requires forall i, j | 0 <= i < j < |index| :: index[i].0 != index[j].0
    requires forall e <- index :: e.0 !in m
    ensures var r := InsertAll(m, index);
      && (forall e <- index :: e.0 in r && r[e.0] == e.1)
      && (forall k <- m :: k in r && r[k] == m[k])
      && (forall k <- r :: k in m || exists e <- index :: e.0 == k)
    decreases |index|
  {
    if index != [] {
      var e, rest := index[0], index[1..];
      assert index == [e] + rest;
      InsertAllDistinct(m[e.0 := e.1], rest);
    }
  }

  lemma TableFields(es: seq<Pair>)
    requires |TableFile(es)| < U64
    ensures var file := TableFile(es);
      && |file| >= HEADER_SIZE + FOOTER_SIZE
      && file[..4] == MAGIC && FromLE(file[4..6]) == VERSION && FromLE(file[6..14]) == |es|
      && FromLE(file[|file| - FOOTER_SIZE..][..8]) == EndOffset(es) <= |file| - FOOTER_SIZE
      && file[EndOffset(es)..|file| - FOOTER_SIZE] == IndexBlock(Index(es))
      && |es| < U64 && EndOffset(es) < U64
  {
    hide LE, FromLE, DataBlock, IndexBlock, Index, Crc32.Hash;
    var data, block := DataBlock(es), IndexBlock(Index(es));
    DataBlockGrows(es);
    DecodeEncodeLE8(|es|);
    DecodeEncodeLE8(EndOffset(es));
    DecodeEncodeLE(VERSION, W2);
    Widths();
    FileParts(MAGIC, LE(VERSION, W2), LE(|es|, W8), data, block, LE(EndOffset(es), W8),
              LE(Crc32.Hash(data), W4) + [0, 0, 0, 0]);
  }

  lemma {:induction false} DataBlockGrows(es: seq<Pair>)
    ensures 8 * |es| <= |DataBlock(es)|
  {
    if es != [] {
      DataBlockGrows(es[..|es| - 1]);
    }
  }

  lemma FileParts(magic: Bytes, version: Bytes, count: Bytes, data: Bytes, block: Bytes, end: Bytes, crc: Bytes)
    requires |magic| == 4 && |version| == 2 && |count| == 8 && |end| == 8 && |crc| == 8
    ensures var file := magic + version + count + (data + (block + (end + crc)));
      && |file| == 30 + |data| + |block|
      && file[..4] == magic && file[4..6] == version && file[6..14] == count
      && file[|file| - 16..][..8] == end
      && file[14 + |data|..|file| - 16] == block
  {
    var head, tail := magic + version + count, end + crc;
    var file := head + (data + (block + tail));
    assert file == head + data + block + tail;
    assert file[|file| - 16..] == tail;
  }

  /** Build then open: the header and index describe the file exactly, and a point
      read at any key's offset finds that key's entry. */
  lemma TableRoundTrip(es: seq<Pair>)
    requires Sorted(es) && Fits(es)
    ensures var file := TableFile(es);
      && ParseTable(file).Ok?
      && var m := ParseTable(file).value;
      && m.entryCount == |es| && m.indexOffset == EndOffset(es)
      && (forall k <- m.index :: exists i :: 0 <= i < |es| && es[i].0 == k)
      && (forall i | 0 <= i < |es| :: es[i].0 in m.index && m.index[es[i].0] == EndOffset(es[..i])
                                      && EntryAt(file, m.index[es[i].0]) == Ok(es[i].1))
  {
    hide FromLE, TableFile, IndexBlock, Index, InsertAll, ParseIndex, EntryBytes, EntryAtFront, PairFits, DataBlock,
      KeyLess, Footer;
    var file, index := TableFile(es), Index(es);
    TableFields(es);
    forall i | 0 <= i < |es|
      ensures index[i] == (es[i].0, EndOffset(es[..i])) && |es[i].0| < U32 && index[i].1 < U64
      ensures EntryAt(file, index[i].1) == Ok(es[i].1)
    {
      IndexContents(es, i);
      EntryReadBack(es, i);
    }
    forall i, j | 0 <= i < j < |index| ensures index[i].0 != index[j].0 {
      KeyLessTotal(es[i].0, es[j].0);
    }
    IndexBlockRoundTrip(index, map[]);
    InsertAllDistinct(map[], index);
    var m := ParseTable(file).value;
    assert m.index == InsertAll(map[], index);
    forall i | 0 <= i < |es| ensures es[i].0 in m.index && m.index[es[i].0] == EndOffset(es[..i]) {
      assert index[i] in index;
    }
  }

  /** Build, open, get: a key that was added gives its value or its tombstone, and every
      other key is reported as not found. */
  lemma BuiltTableGet(es: seq<Pair>, key: Key)
    requires Sorted(es) && Fits(es)
    ensures ParseTable(TableFile(es)).Ok?
    ensures var r := TableGet(TableFile(es), ParseTable(TableFile(es)).value.index, key);
      && (forall p <- es :: p.0 == key ==> r == Ok(EntryValue(p.1)))
      && ((forall p <- es :: p.0 != key) ==> r == Err(KeyNotFound))
  {
    hide TableFile, ParseTable, EntryAt, KeyLess, EndOffset, PairFits, Fits;
    TableRoundTrip(es);
    var index := ParseTable(TableFile(es)).value.index;
    forall p <- es | p.0 == key ensures TableGet(TableFile(es), index, key) == Ok(EntryValue(p.1)) {
      var i :| 0 <= i < |es| && es[i] == p;
    }
    if key in index {
      var i :| 0 <= i < |es| && es[i].0 == key;
      assert es[i] in es;
    }
  }

  lemma EntryReadBack(es: seq<Pair>, i: nat)
    requires Fits(es) && i < |es|
    ensures |es[i].0| < U32 && EndOffset(es[..i]) < U64
    ensures EntryAt(TableFile(es), EndOffset(es[..i])) == Ok(es[i].1)
    ensures StepAtFront(TableFile(es)[EndOffset(es[..i])..]) == Item(es[i], |EntryBytes(es[i])|)
  {
    hide FromLE, TableFile, EntryBytes, EntryAtFront, StepAtFront, DataBlock;
    var rest := EntryLocated(es, i);
    assert PairFits(es[i]);
    EntryRoundTrip(es[i], rest);
  }

  // -- Iteration over a whole table -------------------------------------------

  /** The pairs an iterator yields from `offset` on, and where it stops; None on a read error. */
  function Iterate(file: Bytes, offset: nat, end: nat): Option<(seq<Pair>, nat)>
    decreases if offset < end then end - offset else 0
  {
    match StepAt(file, offset, end)
    case Stop => Some(([], offset))
    case Fail => None
    case Item(p, size) =>
      match Iterate(file, offset + size, end)
      case None => None
      case Some((ps, last)) => Some(([p] + ps, last))
  }

  lemma {:induction false} IterateFrom(es: seq<Pair>, i: nat)
    requires Fits(es) && i <= |es|
    ensures Iterate(TableFile(es), EndOffset(es[..i]), EndOffset(es)) == Some((es[i..], EndOffset(es)))
    decreases |es| - i
  {
    hide TableFile, EntryBytes, StepAtFront, DataBlock;
    if i == |es| {
      assert es[..i] == es;
    } else {
      EntryReadBack(es, i);
      var rest := EntryLocated(es, i);
      var more := DataBlockSplit(es, i);
      assert es[..i + 1] == es[..i] + [es[i]];
      Appended(es[..i], es[i]);
      EntryNotEmpty(es[i]);
      IterateFrom(es, i + 1);
      assert [es[i]] + es[i + 1..] == es[i..];
    }
  }

  lemma EntryNotEmpty(p: Pair)
    ensures |EntryBytes(p)| >= 8
  {
  }

  /** An iterator over a built table yields exactly its entries, in order, and stops
      exactly at the index block. */
  lemma IterateTable(es: seq<Pair>)
    requires Fits(es)
    ensures Iterate(TableFile(es), HEADER_SIZE, EndOffset(es)) == Some((es, EndOffset(es)))
  {
    IterateFrom(es, 0);
    assert es[..0] == [] && es[0..] == es;
  }

  // -- Tables as maps ---------------------------------------------------------

  /** A file that opens and whose every indexed entry can be read. */
  predicate Readable(file: Bytes) {
    && ParseTable(file).Ok?
    && forall k <- ParseTable(file).value.index :: EntryAt(file, ParseTable(file).value.index[k]).Ok?
  }

  function TableOf(file: Bytes): Table
    requires Readable(file)
  {
    var index := ParseTable(file).value.index;
    map k | k in index :: EntryAt(file, index[k]).value
  }

  predicate TableFits(t: Table) {
    Fits(SortedEntries(t))
  }

  /** Flushing a table and reopening the file gives the table back. */
  lemma FlushedTable(t: Table)
    requires TableFits(t)
    ensures Readable(TableFile(SortedEntries(t))) && TableOf(TableFile(SortedEntries(t))) == t
  {
    hide Fits, ParseTable, TableFile, EntryAt, SortedEntries, KeyLess, EndOffset;
    var es := SortedEntries(t);
    var file := TableFile(es);
    SnapshotIsSorted(t);
    TableRoundTrip(es);
    var index := ParseTable(file).value.index;
    forall k <- index ensures k in t && EntryAt(file, index[k]) == Ok(t[k]) {
      var i :| 0 <= i < |es| && es[i].0 == k;
    }
    forall k <- t ensures k in index {
      var i :| 0 <= i < |es| && es[i] == (k, t[k]);
      assert es[i].0 in index;
    }
  }

  /** Point reads through a reader agree with the table the file stands for. */
  lemma GetIsTableLookup(file: Bytes, key: Key)
    requires Readable(file)
    ensures var t, index := TableOf(file), ParseTable(file).value.index;
      TableGet(file, index, key) == if key in t then Ok(EntryValue(t[key])) else Err(KeyNotFound)
  {
    hide ParseTable, EntryAt;
  }

  // -- The bytes of a table file ----------------------------------------------

  /** Magic ATKV, version 1, entry count; data block; index block; then the data block's
      end, its checksum, and four zero bytes. */
  lemma TableLayout(es: seq<Pair>)
    ensures var file, data, block := TableFile(es), DataBlock(es), IndexBlock(Index(es));
      && |file| == 30 + |data| + |block|
      && file[..6] == [0x41, 0x54, 0x4B, 0x56, 1, 0] && file[6..14] == LE(|es|, 8)
      && file[14..14 + |data|] == data && file[14 + |data|..14 + |data| + |block|] == block
      && file[|file| - 16..|file| - 8] == LE(14 + |data|, 8)
      && file[|file| - 8..|file| - 4] == LE(Crc32.Hash(data), 4) && file[|file| - 4..] == [0, 0, 0, 0]
  {
    VersionBytes();
    hide LE, TableFile, DataBlock, IndexBlock, Index, Crc32.Hash;
    var data, block := DataBlock(es), IndexBlock(Index(es));
    var end, crc := LE(EndOffset(es), W8), LE(Crc32.Hash(data), W4);
    Concatenated(es);
    Slices(MAGIC + LE(VERSION, W2), LE(|es|, W8), data, block, end, crc, [0, 0, 0, 0]);
  }

  lemma VersionBytes()
    ensures LE(VERSION, W2) == [1, 0]
  {
  }

  lemma Concatenated(es: seq<Pair>)
    ensures TableFile(es) == MAGIC + LE(VERSION, W2) + LE(|es|, W8) + DataBlock(es) + IndexBlock(Index(es))
                             + LE(EndOffset(es), W8) + LE(Crc32.Hash(DataBlock(es)), W4) + [0, 0, 0, 0]
  {
    hide LE, DataBlock, IndexBlock, Index, Crc32.Hash, EndOffset;
  }

  lemma Slices(head: Bytes, count: Bytes, data: Bytes, block: Bytes, end: Bytes, crc: Bytes, zero: Bytes)
    requires |head| == 6 && |count| == 8 && |end| == 8 && |crc| == 4 && |zero| == 4
    ensures var file := head + count + data + block + end + crc + zero;
      && |file| == 30 + |data| + |block| && file[..6] == head && file[6..14] == count
      && file[14..14 + |data|] == data && file[14 + |data|..14 + |data| + |block|] == block
      && file[|file| - 16..|file| - 8] == end && file[|file| - 8..|file| - 4] == crc && file[|file| - 4..] == zero
  {
  }

  /** An entry: key length, value length or four bytes 0xFF for a tombstone, key, value. */
  lemma EntryLayout(key: Key, e: Entry)
    ensures var s, k := EntryBytes((key, e)), |key|;
      && |s| == 8 + k + (if e.Live? then |e.value| else 0)
      && s[..4] == LE(k, 4) && s[8..8 + k] == key
      && s[4..8] == (if e.Live? then LE(|e.value|, 4) else [0xFF, 0xFF, 0xFF, 0xFF])
      && s[8 + k..] == (if e.Live? then e.value else [])
  {
    assert LE(0xFFFF_FFFF, W4) == [0xFF, 0xFF, 0xFF, 0xFF] by { MarkerBytes(); }
    hide LE;
    EntryParts(LE(|key|, W4), LE(ValueLength(e), W4), key, ValueBytes(e), []);
    assert EntryBytes((key, e)) + [] == EntryBytes((key, e));
  }

  lemma MarkerBytes()
    ensures LE(0xFFFF_FFFF, W4) == [0xFF, 0xFF, 0xFF, 0xFF]
  {
    assert LE(0xFFFF_FFFF, 4) == [0xFF] + LE(0xFF_FFFF, 3);
    assert LE(0xFF_FFFF, 3) == [0xFF] + LE(0xFFFF, 2);
    assert LE(0xFFFF, 2) == [0xFF] + LE(0xFF, 1);
  }

  /** An index entry: key length, offset, key. */
  lemma IndexEntryLayout(key: Key, offset: nat)
    ensures var s := IndexEntryBytes(key, offset);
      |s| == 12 + |key| && s[..4] == LE(|key|, 4) && s[4..12] == LE(offset, 8) && s[12..] == key
  {
    hide LE;
  }

  // -- Damaged and torn files -------------------------------------------------

  /** Which files open: those with magic and version, and an index block inside the file.
      And how the others fail. */
  lemma OpensIff(file: Bytes)
    ensures ParseTable(file).Ok?
            <==> |file| >= 16 && file[..6] == [0x41, 0x54, 0x4B, 0x56, 1, 0]
                 && FromLE(file[|file| - 16..|file| - 8]) <= |file| - 16
    ensures |file| < 14 ==> ParseTable(file) == Err(Io)
    ensures |file| >= 14 && file[..6] != [0x41, 0x54, 0x4B, 0x56, 1, 0] ==> ParseTable(file) == Err(Storage)
    ensures 14 <= |file| < 16 && file[..6] == [0x41, 0x54, 0x4B, 0x56, 1, 0] ==> ParseTable(file) == Err(Io)
    ensures ParseTable(file).Err? && |file| >= 16 && file[..6] == [0x41, 0x54, 0x4B, 0x56, 1, 0] ==>
              ParseTable(file) == Err(Overflow)
  {
    VersionBytes();
    DecodeEncodeLE(VERSION, W2);
    Widths();
    hide FromLE, LE, ParseIndex;
    if |file| >= 16 {
      assert file[|file| - 16..][..8] == file[|file| - 16..|file| - 8];
    }
    if |file| >= 14 {
      EncodeDecodeLE(file[4..6]);
      assert file[..6] == file[..4] + file[4..6];
      assert file[..6][..4] == file[..4] && file[..6][4..] == file[4..6];
    }
  }

  /** Any change to the first six bytes of a table file is noticed when it is opened. */
  lemma HeaderDamage(file: Bytes, i: nat, b: byte)
    requires ParseTable(file).Ok? && i < 6 && file[i] != b
    ensures ParseTable(file[i := b]) == Err(Storage)
  {
    hide FromLE, LE, ParseIndex;
    var bad := file[i := b];
    if i < 4 {
      assert bad[..4][i] != file[..4][i];
    } else {
      assert bad[..4] == file[..4];
      assert bad[4..6][i - 4] != file[4..6][i - 4];
      EncodeDecodeLE(file[4..6]);
      EncodeDecodeLE(bad[4..6]);
    }
  }

  /** An entry cut short: a point read fails, unless it needs no more than the header of
      a tombstone; the iterator always fails. */
  lemma TornEntry(p: Pair, k: nat)
    requires PairFits(p) && k < |EntryBytes(p)|
    ensures EntryAtFront(EntryBytes(p)[..k]) == if p.1.Tombstone? && k >= 8 then Ok(Tombstone) else Err(Io)
    ensures StepAtFront(EntryBytes(p)[..k]) == Fail
  {
    hide LE, FromLE;
    var a, b := LE(|p.0|, W4), LE(ValueLength(p.1), W4);
    EntryParts(a, b, p.0, ValueBytes(p.1), []);
    assert a + (b + (p.0 + ValueBytes(p.1))) + [] == EntryBytes(p);
    DecodeEncodeLE4(|p.0|);
    DecodeEncodeLE4(ValueLength(p.1));
    var s := EntryBytes(p)[..k];
    if k >= 8 {
      assert s[..4] == a && s[4..8] == b;
    }
  }

  /** Reading where no entry header is left in the file fails; the iterator stops at the
      end it was given. */
  lemma PastEnd(file: Bytes, offset: nat, end: nat)
    ensures offset + 8 > |file| ==> EntryAt(file, offset) == Err(Io)
    ensures offset >= end ==> StepAt(file, offset, end) == Stop
    ensures offset < end && offset + 8 > |file| ==> StepAt(file, offset, end) == Fail
  {
    hide FromLE;
  }

  /** An index block that ends within an entry gives the entries before that one. */
  lemma {:induction false} TornIndex(index: seq<(Key, nat)>, key: Key, offset: nat, k: nat, m: map<Key, nat>)
    requires forall e <- index :: |e.0| < U32 && e.1 < U64
    requires |key| < U32 && k < |IndexEntryBytes(key, offset)|
    ensures ParseIndex(IndexBlock(index) + IndexEntryBytes(key, offset)[..k], m) == InsertAll(m, index)
    decreases |index|
  {
    hide LE, FromLE;
    var torn := IndexEntryBytes(key, offset)[..k];
    if index == [] {
      assert IndexBlock(index) + torn == torn;
      DecodeEncodeLE4(|key|);
      if k >= 12 {
        assert torn[..4] == LE(|key|, W4);
      }
    } else {
      var first, rest := index[0], IndexBlock(index[1..]);
      assert IndexBlock(index) + torn == IndexEntryBytes(first.0, first.1) + (rest + torn);
      IndexEntryRoundTrip(first.0, first.1, rest + torn, m);
      TornIndex(index[1..], key, offset, k, m[first.0 := first.1]);
    }
  }
}
