/** The client protocol: framing of commands and responses. */
module WireCodec {
  import opened Bytes
  import opened Errors
  import WalEntries
  import SSTables
  import Layers

  const HEADER_SIZE: nat := 5
  const MAX_PAYLOAD_SIZE: nat := 0x100_0000

  datatype Command = Get(key: Key) | Put(key: Key, value: Value) | Delete(key: Key) | Ping

  datatype Status = StatusOk | StatusNotFound | StatusError

  datatype Response = Response(status: Status, payload: Option<Bytes>)

  // -- Commands ---------------------------------------------------------------

  function CommandType(c: Command): byte {
    match c
    case Get(_) => 1
    case Put(_, _) => 2
    case Delete(_) => 3
    case Ping => 4
  }

  function CommandPayload(c: Command): Bytes {
    match c
    case Get(key) => BE(|key|, W4) + key
    case Put(key, value) => BE(|key|, W4) + (key + value)
    case Delete(key) => BE(|key|, W4) + key
    case Ping => []
  }

  function Frame(tag: byte, payload: Bytes): Bytes {
    [tag] + (BE(|payload|, W4) + payload)
  }

  function EncodeCommand(c: Command): Bytes {
    Frame(CommandType(c), CommandPayload(c))
  }

  /** The key at the front of a payload, and what follows it. */
  function DecodeKey(payload: Bytes): Result<(Key, Bytes)> {
    if |payload| < 4 then Err(Protocol) else
      var n := FromBE(payload[..4]);
      if |payload| < 4 + n then Err(Protocol) else Ok((payload[4..4 + n], payload[4 + n..]))
  }

  /** GET and DELETE ignore bytes behind the key; PING accepts none at all. */
  function DecodePayload(tag: byte, payload: Bytes): Result<Command> {
    if tag == 4 then (if payload == [] then Ok(Ping) else Err(Protocol))
    else if tag == 0 || tag > 4 then Err(Protocol)
    else
      match DecodeKey(payload)
      case Err(e) => Err(e)
      case Ok((key, rest)) =>
        if tag == 1 then Ok(Get(key)) else if tag == 2 then Ok(Put(key, rest)) else Ok(Delete(key))
  }

  function PayloadLength(s: Bytes): nat
    requires |s| >= HEADER_SIZE
  {
    FromBE(s[1..5])
  }

  function DecodeCommand(s: Bytes): Result<Command> {
    if |s| < HEADER_SIZE then Err(Protocol)
    else if PayloadLength(s) > MAX_PAYLOAD_SIZE then Err(Protocol)
    else if |s| < HEADER_SIZE + PayloadLength(s) then Err(Protocol)
    else DecodePayload(s[0], s[5..5 + PayloadLength(s)])
  }

  // -- Responses --------------------------------------------------------------

  function StatusByte(status: Status): byte {
    match status
    case StatusOk => 0
    case StatusNotFound => 1
    case StatusError => 2
  }

  function EncodeResponse(r: Response): Bytes {
    Frame(StatusByte(r.status), if r.payload.Some? then r.payload.value else [])
  }

  function DecodeResponse(s: Bytes): Result<Response> {
    if |s| < HEADER_SIZE then Err(Protocol)
    else if PayloadLength(s) > MAX_PAYLOAD_SIZE then Err(Protocol)
    else if |s| < HEADER_SIZE + PayloadLength(s) then Err(Protocol)
    else if s[0] > 2 then Err(Protocol)
    else
      var n := PayloadLength(s);
      Ok(Response(if s[0] == 0 then StatusOk else if s[0] == 1 then StatusNotFound else StatusError,
                  if n > 0 then Some(s[5..5 + n]) else None))
  }

  // -- Streams ----------------------------------------------------------------

  class ByteStream {
    var rest: Bytes

    constructor (data: Bytes)
      ensures rest == data
    {
      rest := data;
    }

    /** `read_exact`: all n bytes, or an error at the end of the stream. */
    method ReadExact(n: nat) returns (r: Result<Bytes>)
      modifies this
      ensures |old(rest)| >= n ==> r == Ok(old(rest)[..n]) && rest == old(rest)[n..]
      ensures |old(rest)| < n ==> r == Err(Io)
    {
      if |rest| < n {
        return Err(Io);
      }
      r := Ok(rest[..n]);
      rest := rest[n..];
    }
  }

  /** How many bytes the frame at the front of the stream takes, if it is complete. */
  function FrontFrame(s: Bytes): Result<nat> {
    if |s| < HEADER_SIZE then Err(Io)
    else if PayloadLength(s) > MAX_PAYLOAD_SIZE then Err(Protocol)
    else if |s| < HEADER_SIZE + PayloadLength(s) then Err(Io)
    else Ok(HEADER_SIZE + PayloadLength(s))
  }

  function FrontCommand(s: Bytes): Result<Command> {
    match FrontFrame(s)
    case Err(e) => Err(e)
    case Ok(n) => DecodeCommand(s[..n])
  }

  method ReadCommand(stream: ByteStream) returns (r: Result<Command>)
    modifies stream
    ensures r == FrontCommand(old(stream.rest))
    ensures FrontFrame(old(stream.rest)).Ok? ==> stream.rest == old(stream.rest)[FrontFrame(old(stream.rest)).value..]
  {
    hide FromBE, DecodeCommand;
    ghost var s := stream.rest;
    var frame := ReadFrame(stream);
    match frame
    case Err(e) => r := Err(e);
    case Ok(message) => r := DecodeCommand(message);
  }

  method ReadResponse(stream: ByteStream) returns (r: Result<Response>)
    modifies stream
    ensures r == match FrontFrame(old(stream.rest))
                 case Err(e) => Err(e)
                 case Ok(n) => DecodeResponse(old(stream.rest)[..n])
    ensures FrontFrame(old(stream.rest)).Ok? ==> stream.rest == old(stream.rest)[FrontFrame(old(stream.rest)).value..]
  {
    var frame := ReadFrame(stream);
    match frame
    case Err(e) => r := Err(e);
    case Ok(message) => r := DecodeResponse(message);
  }

  /** The shared part of both readers: header, length check, payload. */
  method ReadFrame(stream: ByteStream) returns (r: Result<Bytes>)
    modifies stream
    ensures match FrontFrame(old(stream.rest))
            case Err(e) => r == Err(e)
            case Ok(n) => r == Ok(old(stream.rest)[..n]) && stream.rest == old(stream.rest)[n..]
  {
    ghost var s := stream.rest;
    var header := stream.ReadExact(HEADER_SIZE);
    if header.Err? {
      return Err(Io);
    }
    var n := FromBE(header.value[1..5]);
    assert header.value[1..5] == s[1..5];
    if n > MAX_PAYLOAD_SIZE {
      return Err(Protocol);
    }
    var payload: Result<Bytes> := Ok([]);
    if n > 0 {
      payload := stream.ReadExact(n);
    }
    if payload.Err? {
      return Err(Io);
    }
    assert header.value + payload.value == s[..HEADER_SIZE + n];
    r := Ok(header.value + payload.value);
  }

  // -- Round trips ------------------------------------------------------------

  lemma FrameFields(tag: byte, payload: Bytes, rest: Bytes)
    requires |payload| < U32
    ensures var s := Frame(tag, payload) + rest;
      && |Frame(tag, payload)| == HEADER_SIZE + |payload| && s[0] == tag
      && PayloadLength(s) == |payload| && s[5..5 + |payload|] == payload
      && s[..HEADER_SIZE + |payload|] == Frame(tag, payload) && s[HEADER_SIZE + |payload|..] == rest
  {
    hide BE, FromBE;
    DecodeEncodeBE4(|payload|);
    var len, s := BE(|payload|, W4), Frame(tag, payload) + rest;
    assert s == [tag] + (len + (payload + rest));
    assert s[1..5] == len;
  }

  lemma KeyParts(len: Bytes, key: Bytes, rest: Bytes)
    requires |len| == 4
    ensures var s := len + (key + rest);
      |s| == 4 + |key| + |rest| && s[..4] == len && s[4..4 + |key|] == key && s[4 + |key|..] == rest
  {
  }

  lemma KeyRoundTrip(key: Key, rest: Bytes)
    requires |key| < U32
    ensures DecodeKey(BE(|key|, W4) + (key + rest)) == Ok((key, rest))
  {
    hide BE, FromBE;
    DecodeEncodeBE4(|key|);
    KeyParts(BE(|key|, W4), key, rest);
  }

  lemma PayloadRoundTrip(c: Command)
    requires |CommandPayload(c)| < U32
    ensures DecodePayload(CommandType(c), CommandPayload(c)) == Ok(c)
  {
    hide BE, DecodeKey;
    if c.Put? {
      KeyRoundTrip(c.key, c.value);
    } else if !c.Ping? {
      KeyRoundTrip(c.key, []);
      assert c.key + [] == c.key;
    }
  }

  /** Up to the size the length field can express, a command is read back exactly when
      its payload is within the limit; what follows it does not matter. */
  lemma CommandRoundTrip(c: Command, rest: Bytes)
    requires |CommandPayload(c)| < U32
    ensures DecodeCommand(EncodeCommand(c) + rest)
            == if |CommandPayload(c)| <= MAX_PAYLOAD_SIZE then Ok(c) else Err(Protocol)
    ensures |CommandPayload(c)| <= MAX_PAYLOAD_SIZE ==>
              && FrontCommand(EncodeCommand(c) + rest) == Ok(c)
              && FrontFrame(EncodeCommand(c) + rest) == Ok(|EncodeCommand(c)|)
  {
    hide BE, FromBE, DecodePayload, CommandPayload;
    FrameFields(CommandType(c), CommandPayload(c), rest);
    FrameFields(CommandType(c), CommandPayload(c), []);
    assert EncodeCommand(c) + [] == EncodeCommand(c);
    PayloadRoundTrip(c);
  }

  function EncodeCommands(cs: seq<Command>): Bytes {
    if cs == [] then [] else EncodeCommand(cs[0]) + EncodeCommands(cs[1..])
  }

  /** Commands read one after another until the stream is exhausted or one is bad. */
  function ReadCommands(s: Bytes): (seq<Command>, Bytes)
    decreases |s|
  {
    if s == [] || FrontCommand(s).Err? then ([], s) else
      var (cs, rest) := ReadCommands(s[FrontFrame(s).value..]);
      ([FrontCommand(s).value] + cs, rest)
  }

  /** A stream of encoded commands is read back as the same commands, with nothing left. */
  lemma {:induction false} CommandStreamRoundTrip(cs: seq<Command>)
    requires forall c <- cs :: |CommandPayload(c)| <= MAX_PAYLOAD_SIZE
    ensures ReadCommands(EncodeCommands(cs)) == (cs, [])
  {
    hide EncodeCommand, FrontCommand, FrontFrame, CommandPayload;
    if cs != [] {
      var c, rest := cs[0], EncodeCommands(cs[1..]);
      CommandRoundTrip(c, rest);
      assert (EncodeCommand(c) + rest)[|EncodeCommand(c)|..] == rest;
      NonEmptyFrame(c);
      CommandStreamRoundTrip(cs[1..]);
      assert [c] + cs[1..] == cs;
    }
  }

  lemma NonEmptyFrame(c: Command)
    ensures EncodeCommand(c) != []
  {
  }

  lemma FrameFromFields(s: Bytes)
    requires |s| >= HEADER_SIZE && |s| == HEADER_SIZE + PayloadLength(s)
    ensures s == Frame(s[0], s[5..])
  {
    hide BE, FromBE;
    EncodeDecodeBE(s[1..5]);
    assert s == [s[0]] + (s[1..5] + s[5..]);
  }

  /** An accepted frame re-encodes to itself exactly when nothing in it was ignored:
      always for PUT and PING, and for GET and DELETE when the key fills the payload. */
  lemma AcceptedFrameCanonical(s: Bytes)
    requires |s| >= HEADER_SIZE && |s| == HEADER_SIZE + PayloadLength(s) && DecodeCommand(s).Ok?
    ensures var c := DecodeCommand(s).value;
      EncodeCommand(c) == s <==> c.Put? || c.Ping? || PayloadLength(s) == 4 + |c.key|
  {
    hide BE, FromBE;
    var c, payload := DecodeCommand(s).value, s[5..];
    FrameFromFields(s);
    assert s[5..5 + PayloadLength(s)] == payload;
    assert CommandType(c) == s[0];
    if !c.Ping? {
      EncodeDecodeBE(payload[..4]);
      var n := FromBE(payload[..4]);
      assert payload == payload[..4] + (payload[4..4 + n] + payload[4 + n..]);
      if c.Put? {
        assert CommandPayload(c) == payload;
      } else if |payload| == 4 + n {
        assert payload[4 + n..] == [];
        assert CommandPayload(c) == payload;
      } else {
        assert |EncodeCommand(c)| == 9 + n;
      }
    }
  }

  function Normalized(r: Response): Response {
    if r.payload == Some([]) then r.(payload := None) else r
  }

  /** Responses survive the wire, except that an empty payload arrives as none; above the
      payload limit they are rejected. */
  lemma ResponseRoundTrip(r: Response, rest: Bytes)
    requires r.payload.Some? ==> |r.payload.value| < U32
    ensures var size := if r.payload.Some? then |r.payload.value| else 0;
      DecodeResponse(EncodeResponse(r) + rest)
      == if size <= MAX_PAYLOAD_SIZE then Ok(Normalized(r)) else Err(Protocol)
  {
    hide BE, FromBE, Frame;
    FrameFields(StatusByte(r.status), if r.payload.Some? then r.payload.value else [], rest);
  }

  lemma AcceptedResponseCanonical(s: Bytes)
    requires |s| >= HEADER_SIZE && |s| == HEADER_SIZE + PayloadLength(s) && DecodeResponse(s).Ok?
    ensures EncodeResponse(DecodeResponse(s).value) == s
  {
    hide BE, FromBE;
    FrameFromFields(s);
    assert s[5..5 + PayloadLength(s)] == s[5..];
  }

  // -- The bytes of a frame ---------------------------------------------------

  /** A command: type byte, big-endian length of what follows; then the key's length, the
      key and, for a PUT, the value. */
  lemma CommandLayout(c: Command)
    ensures var s := EncodeCommand(c);
      && |s| == 5 + |CommandPayload(c)| && s[5..] == CommandPayload(c) && s[1..5] == BE(|s| - 5, 4)
      && s[0] == (match c case Get(_) => 0x01 case Put(_, _) => 0x02 case Delete(_) => 0x03 case Ping => 0x04)
      && (c.Ping? ==> |s| == 5)
      && (!c.Ping? ==> |s| >= 9 + |c.key| && s[5..9] == BE(|c.key|, 4) && s[9..9 + |c.key|] == c.key
                       && s[9 + |c.key|..] == if c.Put? then c.value else [])
  {
    hide BE, Frame, CommandPayload;
    FrameLayout(CommandType(c), CommandPayload(c));
    if c.Ping? {
      assert CommandPayload(c) == [] by { PayloadLayout(c); }
    } else {
      PayloadLayout(c);
      PayloadSlices(EncodeCommand(c), CommandPayload(c), |c.key|);
    }
  }

  lemma PayloadLayout(c: Command)
    ensures var p := CommandPayload(c);
      && (c.Ping? ==> p == [])
      && (!c.Ping? ==> |p| >= 4 + |c.key| && p[..4] == BE(|c.key|, 4) && p[4..4 + |c.key|] == c.key
                       && p[4 + |c.key|..] == if c.Put? then c.value else [])
  {
    hide BE;
    if !c.Ping? {
      KeyParts(BE(|c.key|, W4), c.key, if c.Put? then c.value else []);
      assert c.key + [] == c.key;
    }
  }

  lemma FrameLayout(tag: byte, payload: Bytes)
    ensures var s := Frame(tag, payload);
      |s| == 5 + |payload| && s[0] == tag && s[1..5] == BE(|payload|, 4) && s[5..] == payload
  {
    hide BE;
  }

  lemma PayloadSlices(s: Bytes, payload: Bytes, n: nat)
    requires |s| == 5 + |payload| && s[5..] == payload && 4 + n <= |payload|
    ensures s[5..9] == payload[..4] && s[9..9 + n] == payload[4..4 + n] && s[9 + n..] == payload[4 + n..]
  {
    SliceOfSuffix(s, 5, 0, 4);
    SliceOfSuffix(s, 5, 4, 4 + n);
    SliceOfSuffix(s, 5, 4 + n, |payload|);
  }

  /** A response: status byte, big-endian length, payload. */
  lemma ResponseLayout(r: Response)
    ensures var s := EncodeResponse(r);
      && s[5..] == (if r.payload.Some? then r.payload.value else []) && s[1..5] == BE(|s| - 5, 4)
      && s[0] == (match r.status case StatusOk => 0x00 case StatusNotFound => 0x01 case StatusError => 0x02)
  {
    hide BE;
    FrameLayout(StatusByte(r.status), if r.payload.Some? then r.payload.value else []);
  }

  /** What may follow the key in a frame: the value of a PUT; for GET and DELETE anything,
      which is ignored. */
  predicate Trailer(c: Command, extra: Bytes) {
    (c.Put? || c.Ping? ==> extra == []) && |CommandPayload(c) + extra| <= 16 * 1024 * 1024
  }

  /** Exactly which bytes are accepted as a command. */
  lemma DecodeCommandIff(s: Bytes, c: Command)
    ensures DecodeCommand(s) == Ok(c)
            <==> exists extra :: Trailer(c, extra) && Frame(CommandType(c), CommandPayload(c) + extra) <= s
  {
    hide BE, FromBE, Trailer, CommandPayload, Frame, DecodeCommand, CommandType;
    if DecodeCommand(s) == Ok(c) {
      var extra := AcceptedTrailer(s, c);
    }
    forall extra | Trailer(c, extra) && Frame(CommandType(c), CommandPayload(c) + extra) <= s
      ensures DecodeCommand(s) == Ok(c) {
      TrailerAccepted(s, c, extra);
    }
  }

  lemma PrefixOfFrame(s: Bytes)
    requires |s| >= 5 && |s| >= 5 + PayloadLength(s)
    ensures Frame(s[0], s[5..5 + PayloadLength(s)]) <= s
  {
    hide BE, FromBE;
    EncodeDecodeBE(s[1..5]);
    var n := PayloadLength(s);
    assert s[..5 + n] == [s[0]] + (s[1..5] + s[5..5 + n]);
  }

  lemma KeyCanonical(payload: Bytes)
    requires DecodeKey(payload).Ok?
    ensures var (key, rest) := DecodeKey(payload).value; payload == BE(|key|, W4) + (key + rest)
  {
    hide BE, FromBE;
    EncodeDecodeBE(payload[..4]);
    var n := FromBE(payload[..4]);
    assert payload == payload[..4] + (payload[4..4 + n] + payload[4 + n..]);
  }

  lemma AcceptedTrailer(s: Bytes, c: Command) returns (extra: Bytes)
    requires DecodeCommand(s) == Ok(c)
    ensures Trailer(c, extra) && Frame(CommandType(c), CommandPayload(c) + extra) <= s
  {
    hide BE, FromBE, Frame, DecodeKey;
    var payload := s[5..5 + PayloadLength(s)];
    PrefixOfFrame(s);
    extra := [];
    if !c.Ping? {
      KeyCanonical(payload);
      if !c.Put? {
        extra := DecodeKey(payload).value.1;
      }
    }
    assert CommandPayload(c) + extra == payload;
  }

  lemma TrailerAccepted(s: Bytes, c: Command, extra: Bytes)
    requires Trailer(c, extra) && Frame(CommandType(c), CommandPayload(c) + extra) <= s
    ensures DecodeCommand(s) == Ok(c)
  {
    hide BE, FromBE, Frame, DecodeKey;
    var payload := CommandPayload(c) + extra;
    var rest := s[|Frame(CommandType(c), payload)|..];
    assert s == Frame(CommandType(c), payload) + rest;
    FrameFields(CommandType(c), payload, rest);
    if !c.Ping? {
      var tail := if c.Put? then c.value else extra;
      assert payload == BE(|c.key|, W4) + (c.key + tail);
      KeyRoundTrip(c.key, tail);
    }
  }

  /** Exactly which bytes are accepted as a response. */
  lemma DecodeResponseIff(s: Bytes, r: Response)
    ensures DecodeResponse(s) == Ok(r)
            <==> r.payload != Some([]) && EncodeResponse(r) <= s
                 && (r.payload.Some? ==> |r.payload.value| <= 16 * 1024 * 1024)
  {
    hide BE, FromBE, Frame;
    var payload := if r.payload.Some? then r.payload.value else [];
    if DecodeResponse(s) == Ok(r) {
      PrefixOfFrame(s);
      assert payload == s[5..5 + PayloadLength(s)];
    }
    if r.payload != Some([]) && EncodeResponse(r) <= s && |payload| <= 16 * 1024 * 1024 {
      var rest := s[|EncodeResponse(r)|..];
      assert s == EncodeResponse(r) + rest;
      FrameFields(StatusByte(r.status), payload, rest);
    }
  }

  /** Reading a frame that the stream cuts short: the end of the stream is an I/O error,
      unless the header already announces more than the limit. */
  lemma TornFrame(tag: byte, payload: Bytes, k: nat)
    requires |payload| < U32 && k < |Frame(tag, payload)|
    ensures FrontFrame(Frame(tag, payload)[..k])
            == if k >= 5 && |payload| > 16 * 1024 * 1024 then Err(Protocol) else Err(Io)
  {
    hide BE, FromBE, Frame;
    FrameFields(tag, payload, []);
    assert Frame(tag, payload) + [] == Frame(tag, payload);
    if k >= 5 {
      assert Frame(tag, payload)[..k][1..5] == Frame(tag, payload)[1..5];
    }
  }

  // -- What the storage layer may rely on -------------------------------------

  /** Any write accepted from the wire fits the WAL record's length field and the
      table entry's length fields, and is never mistaken for a tombstone. */
  lemma AcceptedWriteStorable(s: Bytes)
    requires DecodeCommand(s).Ok?
    ensures var c := DecodeCommand(s).value;
      && (c.Put? ==> WalEntries.Storable(WalEntries.Put(c.key, c.value))
                     && SSTables.PairFits((c.key, Layers.Live(c.value)))
                     && 4 + |c.key| + |c.value| <= MAX_PAYLOAD_SIZE)
      && (c.Delete? ==> WalEntries.Storable(WalEntries.Delete(c.key)) && SSTables.PairFits((c.key, Layers.Tombstone)))
  {
    hide FromBE, LE;
  }
}
