/** One WAL record: bincode payload, framing, checksum. */
module WalEntries {
  import opened Bytes
  import opened Errors
  import Crc32

  type u64 = x: nat | x < U64

  const HEADER_SIZE: nat := 16

  datatype Operation =
    | Put(key: Key, value: Value)
    | Delete(key: Key)

  datatype WalEntry = WalEntry(lsn: u64, op: Operation, timestamp: u64)

  // -- bincode payload: fixed-width little-endian, u32 tags, u64 lengths -------

  function Blob(s: Bytes): Bytes {
    LE(|s|, W8) + s
  }

  function OperationBytes(op: Operation): Bytes {
    match op
    case Put(key, value) => LE(0, W4) + (Blob(key) + Blob(value))
    case Delete(key) => LE(1, W4) + Blob(key)
  }

  function Payload(e: WalEntry): Bytes {
    LE(e.lsn, W8) + (OperationBytes(e.op) + LE(e.timestamp, W8))
  }

  /** Reads a w-byte integer off the front of s. */
  function ReadInt(s: Bytes, w: nat): Option<(nat, Bytes)> {
    if |s| < w then None else Some((FromLE(s[..w]), s[w..]))
  }

  /** Reads a length-prefixed byte vector off the front of s. */
  function ReadBlob(s: Bytes): Option<(Bytes, Bytes)> {
    match ReadInt(s, W8)
    case None => None
    case Some((n, rest)) => if |rest| < n then None else Some((rest[..n], rest[n..]))
  }

  function ReadOperation(s: Bytes): Option<(Operation, Bytes)> {
    match ReadInt(s, W4)
    case None => None
    case Some((tag, s1)) =>
      if tag > 1 then None else
        match ReadBlob(s1)
        case None => None
        case Some((key, s2)) =>
          if tag == 1 then Some((Delete(key), s2)) else
            match ReadBlob(s2)
            case None => None
            case Some((value, s3)) => Some((Put(key, value), s3))
  }

  /** `bincode::deserialize`, which accepts trailing bytes. */
  function ParsePayload(s: Bytes): Option<WalEntry> {
    match ReadInt(s, W8)
    case None => None
    case Some((lsn, s1)) =>
      match ReadOperation(s1)
      case None => None
      case Some((op, s2)) =>
        match ReadInt(s2, W8)
        case None => None
        case Some((timestamp, _)) =>
          Widths();
          Some(WalEntry(lsn, op, timestamp))
  }

  // -- Framing: LSN (8), CRC (4), length (4), payload -------------------------

  /** The bytes the checksum covers. */
  function Checked(lsn: nat, data: Bytes): Bytes {
    LE(lsn, W8) + (LE(|data|, W4) + data)
  }

  function Frame(lsn: nat, data: Bytes): Bytes {
    LE(lsn, W8) + (LE(Crc32.Hash(Checked(lsn, data)), W4) + (LE(|data|, W4) + data))
  }

  function Serialize(e: WalEntry): Bytes {
    Frame(e.lsn, Payload(e))
  }

  /** The payload length fits the record's 4-byte length field. */
  predicate Storable(op: Operation) {
    16 + |OperationBytes(op)| < U32
  }

  predicate AllStorable(es: seq<WalEntry>) {
    forall e <- es :: Storable(e.op)
  }

  function DataLength(header: Bytes): nat
    requires |header| >= HEADER_SIZE
  {
    FromLE(header[12..16])
  }

  function Deserialize(s: Bytes): Result<WalEntry> {
    if |s| < HEADER_SIZE then Err(WalCorruption) else
      var lsn, crc, n := FromLE(s[..8]), FromLE(s[8..12]), DataLength(s);
      if |s| < HEADER_SIZE + n then Err(WalCorruption) else
        var data := s[HEADER_SIZE..HEADER_SIZE + n];
        if Crc32.Hash(Checked(lsn, data)) != crc then Err(WalCorruption) else
          match ParsePayload(data)
          case None => Err(WalCorruption)
          case Some(e) => if e.lsn != lsn then Err(WalCorruption) else Ok(e)
  }

  // -- Round trip -------------------------------------------------------------

  lemma ReadU64Encoded(n: u64, rest: Bytes)
    ensures ReadInt(LE(n, W8) + rest, W8) == Some((n, rest))
  {
    DecodeEncodeLE8(n);
    assert (LE(n, W8) + rest)[..W8] == LE(n, W8) && (LE(n, W8) + rest)[W8..] == rest;
  }

  lemma ReadU32Encoded(n: nat, rest: Bytes)
    requires n < U32
    ensures ReadInt(LE(n, W4) + rest, W4) == Some((n, rest))
  {
    DecodeEncodeLE4(n);
    assert (LE(n, W4) + rest)[..W4] == LE(n, W4) && (LE(n, W4) + rest)[W4..] == rest;
  }

  lemma ReadBlobEncoded(s: Bytes, rest: Bytes)
    requires |s| < U64
    ensures ReadBlob(Blob(s) + rest) == Some((s, rest))
  {
    assert Blob(s) + rest == LE(|s|, W8) + (s + rest);
    ReadU64Encoded(|s|, s + rest);
    assert (s + rest)[..|s|] == s && (s + rest)[|s|..] == rest;
  }

  lemma ReadOperationEncoded(op: Operation, rest: Bytes)
    requires Storable(op)
    ensures ReadOperation(OperationBytes(op) + rest) == Some((op, rest))
  {
    hide LE, FromLE;
    match op
    case Put(key, value) =>
      var body := Blob(key) + (Blob(value) + rest);
      assert OperationBytes(op) + rest == LE(0, W4) + body;
      ReadU32Encoded(0, body);
      ReadBlobEncoded(key, Blob(value) + rest);
      ReadBlobEncoded(value, rest);
    case Delete(key) =>
      assert OperationBytes(op) + rest == LE(1, W4) + (Blob(key) + rest);
      ReadU32Encoded(1, Blob(key) + rest);
      ReadBlobEncoded(key, rest);
  }

  lemma ParsePayloadEncoded(e: WalEntry, extra: Bytes)
    requires Storable(e.op)
    ensures ParsePayload(Payload(e) + extra) == Some(e)
  {
    hide LE, FromLE, OperationBytes, ReadOperation;
    var tail := LE(e.timestamp, W8) + extra;
    assert Payload(e) + extra == LE(e.lsn, W8) + (OperationBytes(e.op) + tail);
    ReadU64Encoded(e.lsn, OperationBytes(e.op) + tail);
    ReadOperationEncoded(e.op, tail);
    ReadU64Encoded(e.timestamp, extra);
  }

  lemma HeaderParts(a: Bytes, b: Bytes, c: Bytes, d: Bytes)
    requires |a| == 8 && |b| == 4 && |c| == 4
    ensures var s := a + (b + (c + d));
      |s| == HEADER_SIZE + |d| && s[..8] == a && s[8..12] == b && s[12..16] == c && s[16..] == d
  {
  }

  /** Where each field of a framed record lies, whatever bytes follow it. */
  lemma FrameFields(lsn: u64, data: Bytes, rest: Bytes)
    requires |data| < U32
    ensures var s := Frame(lsn, data) + rest;
      && |Frame(lsn, data)| == HEADER_SIZE + |data|
      && s[16..] == data + rest
      && FromLE(s[..8]) == lsn && FromLE(s[8..12]) == Crc32.Hash(Checked(lsn, data))
      && DataLength(s) == |data|
  {
    hide LE, FromLE, Crc32.Hash, Checked;
    var crc := Crc32.Hash(Checked(lsn, data));
    DecodeEncodeLE8(lsn);
    DecodeEncodeLE4(crc);
    DecodeEncodeLE4(|data|);
    HeaderParts(LE(lsn, W8), LE(crc, W4), LE(|data|, W4), data + rest);
    assert Frame(lsn, data) + rest == LE(lsn, W8) + (LE(crc, W4) + (LE(|data|, W4) + (data + rest)));
  }

  lemma PayloadLength(e: WalEntry)
    ensures |Payload(e)| == 16 + |OperationBytes(e.op)|
  {
  }

  /** A serialized record deserializes to itself, whatever follows it. */
  lemma SerializeRoundTrip(e: WalEntry, rest: Bytes)
    requires Storable(e.op)
    ensures Deserialize(Serialize(e) + rest) == Ok(e)
    ensures |Serialize(e)| == HEADER_SIZE + |Payload(e)| < HEADER_SIZE + U32
  {
    hide LE, FromLE, Crc32.Hash, Checked, Payload, ParsePayload;
    var data, s := Payload(e), Serialize(e) + rest;
    PayloadLength(e);
    FrameFields(e.lsn, data, rest);
    ParsePayloadEncoded(e, []);
    assert data + [] == data;
    assert s[HEADER_SIZE..HEADER_SIZE + |data|] == s[16..][..|data|] == data;
  }

  /** The checksum of a complete record covers its own bytes, without the CRC field. */
  lemma ChecksumCovers(s: Bytes)
    requires |s| >= HEADER_SIZE && |s| == HEADER_SIZE + DataLength(s)
    ensures Checked(FromLE(s[..8]), s[16..]) == s[..8] + s[12..]
    ensures Crc32.Hash(s[..8] + s[12..]) != FromLE(s[8..12]) ==> Deserialize(s) == Err(WalCorruption)
  {
    hide LE, FromLE, Crc32.Hash;
    EncodeDecodeLE(s[..8]);
    EncodeDecodeLE(s[12..16]);
    assert s[16..] == s[16..16 + DataLength(s)];
    assert s[12..] == s[12..16] + s[16..];
  }

  /** Damage to any one byte of a record outside its length field is detected. */
  lemma SingleByteDamageDetected(e: WalEntry, i: nat, b: byte)
    requires Storable(e.op)
    requires i < |Serialize(e)| && !(12 <= i < 16) && Serialize(e)[i] != b
    ensures Deserialize(Serialize(e)[i := b]) == Err(WalCorruption)
    ensures DataLength(Serialize(e)[i := b]) == |Payload(e)|
  {
    hide LE, FromLE, Crc32.Hash, Serialize, Payload, Deserialize;
    var good := Serialize(e);
    var bad := good[i := b];
    IntactRecord(e);
    assert bad[12..16] == good[12..16];
    DamageChangesChecksum(good, i, b);
    ChecksumCovers(bad);
  }

  lemma IntactRecord(e: WalEntry)
    requires Storable(e.op)
    ensures var s := Serialize(e);
      |s| >= HEADER_SIZE && |s| == HEADER_SIZE + DataLength(s) && DataLength(s) == |Payload(e)|
      && Crc32.Hash(s[..8] + s[12..]) == FromLE(s[8..12])
  {
    hide LE, FromLE, Crc32.Hash;
    var s := Serialize(e);
    FrameFields(e.lsn, Payload(e), []);
    assert s + [] == s;
    ChecksumCovers(s);
    assert s[16..] == Payload(e);
  }

  lemma DamageChangesChecksum(s: Bytes, i: nat, b: byte)
    requires |s| >= HEADER_SIZE && i < |s| && !(12 <= i < 16) && s[i] != b
    requires Crc32.Hash(s[..8] + s[12..]) == FromLE(s[8..12])
    ensures var bad := s[i := b]; Crc32.Hash(bad[..8] + bad[12..]) != FromLE(bad[8..12])
  {
    hide LE, FromLE, Crc32.Hash;
    var bad := s[i := b];
    var before, after := s[..8] + s[12..], bad[..8] + bad[12..];
    if 8 <= i < 12 {
      assert before == after;
      assert bad[8..12][i - 8] != s[8..12][i - 8];
      EncodeDecodeLE(bad[8..12]);
      EncodeDecodeLE(s[8..12]);
    } else {
      assert bad[8..12] == s[8..12];
      var j := if i < 8 then i else i - 4;
      assert before == before[..j] + [s[i]] + before[j + 1..];
      assert after == before[..j] + [b] + before[j + 1..];
      Crc32.SingleByteChangeDetected(before[..j], s[i], b, before[j + 1..]);
    }
  }

  // -- The bytes of a record --------------------------------------------------

  /** The framing of a record: number, checksum of all other bytes, length, payload. */
  lemma RecordLayout(e: WalEntry)
    requires Storable(e.op)
    ensures var s := Serialize(e);
      && |s| == 16 + |Payload(e)| && s[16..] == Payload(e)
      && s[..8] == LE(e.lsn, 8) && s[12..16] == LE(|Payload(e)|, 4)
      && s[8..12] == LE(Crc32.Hash(s[..8] + s[12..]), 4)
  {
    hide LE, FromLE, Crc32.Hash, Payload, Checked;
    IntactRecord(e);
    EncodeDecodeLE(Serialize(e)[8..12]);
    var data := Payload(e);
    HeaderParts(LE(e.lsn, W8), LE(Crc32.Hash(Checked(e.lsn, data)), W4), LE(|data|, W4), data);
  }

  /** The payload of a put: number, tag 0, key and value with their lengths, time. */
  lemma PutLayout(e: WalEntry)
    requires e.op.Put?
    ensures var p, k, v := Payload(e), |e.op.key|, |e.op.value|;
      && |p| == 36 + k + v && p[..8] == LE(e.lsn, 8) && p[8..12] == [0, 0, 0, 0]
      && p[12..20] == LE(k, 8) && p[20..20 + k] == e.op.key
      && p[20 + k..28 + k] == LE(v, 8) && p[28 + k..28 + k + v] == e.op.value
      && p[28 + k + v..] == LE(e.timestamp, 8)
  {
    assert LE(0, W4) == [0, 0, 0, 0];
    hide LE;
    var lsn, tag, time := LE(e.lsn, W8), LE(0, W4), LE(e.timestamp, W8);
    var kl, vl := LE(|e.op.key|, W8), LE(|e.op.value|, W8);
    assert Payload(e) == lsn + tag + kl + e.op.key + vl + e.op.value + time;
  }

  /** The payload of a delete: number, tag 1, key with its length, time. */
  lemma DeleteLayout(e: WalEntry)
    requires e.op.Delete?
    ensures var p, k := Payload(e), |e.op.key|;
      && |p| == 28 + k && p[..8] == LE(e.lsn, 8) && p[8..12] == [1, 0, 0, 0]
      && p[12..20] == LE(k, 8) && p[20..20 + k] == e.op.key && p[20 + k..] == LE(e.timestamp, 8)
  {
    assert LE(1, W4) == [1, 0, 0, 0];
    hide LE;
    assert Payload(e) == LE(e.lsn, W8) + LE(1, W4) + LE(|e.op.key|, W8) + e.op.key + LE(e.timestamp, W8);
  }

  lemma ReadIntCanonical(s: Bytes, w: nat)
    ensures ReadInt(s, w).Some? ==> var (n, rest) := ReadInt(s, w).value; n < Pow256(w) && s == LE(n, w) + rest
  {
    hide LE, FromLE;
    if w <= |s| {
      EncodeDecodeLE(s[..w]);
    }
  }

  lemma ReadBlobCanonical(s: Bytes)
    ensures ReadBlob(s).Some? ==> var (b, rest) := ReadBlob(s).value; s == Blob(b) + rest
  {
    hide LE, FromLE, ReadInt;
    ReadIntCanonical(s, W8);
    if ReadBlob(s).Some? {
      var (n, rest) := ReadInt(s, W8).value;
      assert rest == rest[..n] + rest[n..];
    }
  }

  lemma ReadOperationCanonical(s: Bytes)
    ensures ReadOperation(s).Some? ==> var (op, rest) := ReadOperation(s).value; s == OperationBytes(op) + rest
  {
    hide LE, FromLE, ReadInt, ReadBlob, Blob;
    ReadIntCanonical(s, W4);
    if ReadOperation(s).Some? {
      var (tag, s1) := ReadInt(s, W4).value;
      ReadBlobCanonical(s1);
      var (key, s2) := ReadBlob(s1).value;
      if tag == 0 {
        ReadBlobCanonical(s2);
        var (value, s3) := ReadBlob(s2).value;
        assert LE(0, W4) + (Blob(key) + (Blob(value) + s3)) == LE(0, W4) + (Blob(key) + Blob(value)) + s3;
      } else {
        assert LE(1, W4) + (Blob(key) + s2) == LE(1, W4) + Blob(key) + s2;
      }
    }
  }

  /** Whatever bincode accepts is the encoding of what it returns, then anything. */
  lemma ParsePayloadCanonical(s: Bytes) returns (extra: Bytes)
    requires ParsePayload(s).Some?
    ensures s == Payload(ParsePayload(s).value) + extra
  {
    hide LE, FromLE, ReadInt, ReadOperation, OperationBytes;
    ReadIntCanonical(s, W8);
    var (lsn, s1) := ReadInt(s, W8).value;
    ReadOperationCanonical(s1);
    var (op, s2) := ReadOperation(s1).value;
    ReadIntCanonical(s2, W8);
    var (timestamp, rest) := ReadInt(s2, W8).value;
    extra := rest;
    var a, b, c := LE(lsn, W8), OperationBytes(op), LE(timestamp, W8);
    assert a + (b + (c + extra)) == a + (b + c) + extra;
  }

  /** Exactly which bytes are accepted as a record: those that start with the framed
      encoding of the entry, whose payload may have extra bytes behind it. */
  lemma DeserializeIff(s: Bytes, e: WalEntry)
    ensures Deserialize(s) == Ok(e)
            <==> exists extra :: |Payload(e) + extra| < U32 && Frame(e.lsn, Payload(e) + extra) <= s
  {
    hide LE, FromLE, Crc32.Hash, Checked, Payload, ParsePayload, Frame, Deserialize;
    if Deserialize(s) == Ok(e) {
      var extra := AcceptedFrame(s, e);
    }
    forall extra | |Payload(e) + extra| < U32 && Frame(e.lsn, Payload(e) + extra) <= s
      ensures Deserialize(s) == Ok(e) {
      FrameAccepted(s, e, extra);
    }
  }

  lemma AcceptedFrame(s: Bytes, e: WalEntry) returns (extra: Bytes)
    requires Deserialize(s) == Ok(e)
    ensures |Payload(e) + extra| < U32 && Frame(e.lsn, Payload(e) + extra) <= s
  {
    hide LE, FromLE, Crc32.Hash, Checked, Payload, ParsePayload;
    var n := DataLength(s);
    var data := s[16..16 + n];
    Widths();
    extra := ParsePayloadCanonical(data);
    EncodeDecodeLE(s[..8]);
    EncodeDecodeLE(s[8..12]);
    EncodeDecodeLE(s[12..16]);
    assert s[..16 + n] == s[..8] + (s[8..12] + (s[12..16] + data));
  }

  lemma FrameAccepted(s: Bytes, e: WalEntry, extra: Bytes)
    requires |Payload(e) + extra| < U32 && Frame(e.lsn, Payload(e) + extra) <= s
    ensures Deserialize(s) == Ok(e)
  {
    hide LE, FromLE, Crc32.Hash, Checked, Payload, ParsePayload, Frame;
    var data := Payload(e) + extra;
    var rest := s[|Frame(e.lsn, data)|..];
    assert s == Frame(e.lsn, data) + rest;
    FrameFields(e.lsn, data, rest);
    assert s[16..16 + |data|] == s[16..][..|data|] == data;
    PayloadLength(e);
    ParsePayloadEncoded(e, extra);
  }
}
