/** Pinger.getPing: one status exchange with a Minecraft server, as bytes.
    The client writes a handshake frame and a status request, reads the status reply (a size
    it ignores, a packet id, a length and that many bytes of JSON), writes a ping carrying a
    timestamp, and reads the pong's size and packet id. The server's whole reply is given up
    front as a byte sequence; the client's writes are the bytes it sends. */
module Pinger {
  import opened Streams
  import opened PingUtil
  import opened Options

  const HostnameNull: string := "Hostname cannot be null."
  const PrematureEnd: string := "Server prematurely ended stream."
  const InvalidPacket: string := "Server returned invalid packet."
  const UnexpectedValue: string := "Server returned unexpected value."

  /** The handshake packet body: packet id 0x00, protocol version 4, the hostname's length and
      bytes, the port as an unsigned short, and next state 1 (status). */
  function HandshakePayload(host: Hostname, port: int32): (r: seq<uint8>)
    ensures |host| + 6 <= |r| <= |host| + 10
  {
    EncodeLength(Unsigned(|host| as int32));
    [PacketHandshake] + Encode(ProtocolVersion) + Encode(|host| as int32) + host
      + ShortBytes(port) + Encode(StatusHandshake)
  }

  /** The handshake as sent: the body's length as a VarInt (one to five bytes), then the body,
      which fills the rest of the frame. */
  function HandshakeFrame(host: Hostname, port: int32): (r: seq<uint8>)
    ensures var n := |HandshakePayload(host, port)|;
      && n < |r| <= n + 5 && |host| + 7 <= |r| <= |host| + 15 && r[|r| - n..] == HandshakePayload(host, port)
  {
    var payload := HandshakePayload(host, port);
    var prefix := Encode(|payload| as int32);
    assert (prefix + payload)[|prefix|..] == payload;
    prefix + payload
  }

  /** The status request as sent: a size of 1 counting the byte after it, then packet id 0x00. */
  function StatusRequest(): (r: seq<uint8>)
    ensures |r| == 2 && r[0] as int == |r| - 1 && r[1] == PacketStatusRequest
  {
    [0x01, PacketStatusRequest]
  }

  /** The ping as sent: size 9, packet id 0x01, the timestamp as eight big-endian bytes. */
  function PingPacket(timestamp: int64): (r: seq<uint8>)
    ensures |r| == 10 && r[0] as int == |r| - 1 && r[1] == PacketPing && r[2..] == LongBytes(timestamp)
  {
    [0x09, PacketPing] + LongBytes(timestamp)
  }

  /** Reads a reply's header at `pos`: its size (read and ignored) and its packet id, which
      must be neither -1 nor `expected`. Yields the position after the id. */
  function ReadHeader(s: seq<uint8>, pos: nat, expected: int32): (r: Result<nat>)
    ensures r.Ok? ==> pos < r.value <= |s|
    ensures r.Err? ==> r.failure in {EndOfStream, VarIntTooBig, Protocol(PrematureEnd), Protocol(InvalidPacket)}
  {
    var size :- Decode(s, pos);
    var id :- Decode(s, size.next);
    var _ :- Io(id.value == -1, PrematureEnd);
    var _ :- Io(id.value != expected, InvalidPacket);
    Ok(id.next)
  }

  /** Reads the status reply at `pos`: the header with packet id 0x00, then a length that must
      be neither -1 nor 0, then exactly that many bytes. Yields those bytes (the JSON text)
      and the position after them. */
  function ReadStatus(s: seq<uint8>, pos: nat): (r: Result<Read<seq<uint8>>>)
    ensures r.Ok? ==>
      && 0 < |r.value.value| && pos < r.value.next - |r.value.value| && r.value.next <= |s|
      && r.value.value == s[r.value.next - |r.value.value|..r.value.next]
    ensures r.Err? ==> r.failure in {EndOfStream, VarIntTooBig, NegativeArraySize, Protocol(PrematureEnd),
                                     Protocol(InvalidPacket), Protocol(UnexpectedValue)}
  {
    var body :- ReadHeader(s, pos, PacketStatusRequest as int32);
    var length :- Decode(s, body);
    var _ :- Io(length.value == -1, PrematureEnd);
    var _ :- Io(length.value == 0, UnexpectedValue);
    if length.value < 0 then Err(NegativeArraySize)
    else if length.next + length.value as int > |s| then Err(EndOfStream)
    else Ok(Read(s[length.next..length.next + length.value as int], length.next + length.value as int))
  }

  /** What one call of getPing does: the bytes the client sends, and either the JSON text of the
      status with the position where the client stopped reading, or the exception it throws. */
  datatype Session = Session(written: seq<uint8>, outcome: Result<Read<seq<uint8>>>)

  /** `new InetSocketAddress(hostname, port)` accepts the ports 0 to 65535 only. */
  predicate ValidPort(port: int32) {
    0 <= port <= 0xFFFF
  }

  /** The exchange on a connected socket: the handshake and the status request, the status
      reply, the ping, and the pong's header. The handshake and the status request always go
      out; the exchange succeeds exactly when both replies pass, and then the ping went out too. */
  function Exchange(host: Hostname, port: int32, timestamp: int64, reply: seq<uint8>): (s: Session)
    ensures HandshakeFrame(host, port) + StatusRequest() <= s.written
    ensures s.outcome.Ok? <==>
      ReadStatus(reply, 0).Ok? && ReadHeader(reply, ReadStatus(reply, 0).value.next, PacketPing as int32).Ok?
    ensures s.outcome.Ok? ==> s.written == HandshakeFrame(host, port) + StatusRequest() + PingPacket(timestamp)
  {
    var sent := HandshakeFrame(host, port) + StatusRequest();
    match ReadStatus(reply, 0)
    case Err(f) => Session(sent, Err(f))
    case Ok(status) =>
      var sent' := sent + PingPacket(timestamp);
      match ReadHeader(reply, status.next, PacketPing as int32)
      case Err(f) => Session(sent', Err(f))
      case Ok(end) => Session(sent', Ok(Read(status.value, end)))
  }

  /** getPing against a server whose reply is `reply`, with `timestamp` as the clock reading.
      Nothing is sent when the options are refused; otherwise the handshake and the status
      request go first, and a session that succeeds has sent the ping as well. */
  function Ping(hostname: Option<Hostname>, port: int32, timestamp: int64, reply: seq<uint8>): (s: Session)
    ensures s.written == [] <==> hostname.None? || !ValidPort(port)
    ensures hostname.Some? && ValidPort(port) ==> HandshakeFrame(hostname.value, port) + StatusRequest() <= s.written
    ensures s.outcome.Ok? <==>
      && hostname.Some? && ValidPort(port) && ReadStatus(reply, 0).Ok?
      && ReadHeader(reply, ReadStatus(reply, 0).value.next, PacketPing as int32).Ok?
    ensures s.outcome.Ok? ==>
      && s.written == HandshakeFrame(hostname.value, port) + StatusRequest() + PingPacket(timestamp)
      && s.outcome.value.next <= |reply|
  {
    match Validate(hostname, HostnameNull)
    case Err(f) => Session([], Err(f))
    case Ok(host) =>
      if !ValidPort(port) then Session([], Err(PortOutOfRange(port)))
      else Exchange(host, port, timestamp, reply)
  }

  /** Writes the handshake body into its own, still empty, buffer. */
  method WriteHandshakePayload(handshake: OutputStream, host: Hostname, port: int32)
    requires handshake.written == []
    modifies handshake
    ensures handshake.written == HandshakePayload(host, port)
  {
    handshake.WriteByte(PacketHandshake);
    assert handshake.written == [PacketHandshake];
    WriteVarInt(handshake, ProtocolVersion);
    WriteVarInt(handshake, |host| as int32);
    handshake.Write(host);
    handshake.WriteShort(port);
    WriteVarInt(handshake, StatusHandshake);
  }

  /** Builds the handshake body in a buffer of its own, then sends its length and the body. */
  method WriteHandshake(out: OutputStream, host: Hostname, port: int32)
    modifies out
    ensures out.written == old(out.written) + HandshakeFrame(host, port)
  {
    var handshake := new OutputStream();
    WriteHandshakePayload(handshake, host, port);
    var payload := handshake.written;
    WriteVarInt(out, |payload| as int32);
    out.Write(payload);
  }

  /** Sends the status request: its size, then its packet id. */
  method WriteStatusRequest(out: OutputStream)
    modifies out
    ensures out.written == old(out.written) + StatusRequest()
  {
    out.WriteByte(0x01);
    out.WriteByte(PacketStatusRequest);
  }

  /** Sends the ping: its size, its packet id, then the timestamp. */
  method WritePing(out: OutputStream, timestamp: int64)
    modifies out
    ensures out.written == old(out.written) + PingPacket(timestamp)
  {
    out.WriteByte(0x09);
    out.WriteByte(PacketPing);
    out.WriteLong(timestamp);
  }

  /** Reads a reply's size and packet id from the stream and checks the id. */
  method ReadReplyHeader(input: InputStream, expected: int32) returns (r: Result<nat>)
    requires input.Valid()
    modifies input
    ensures input.Valid()
    ensures r == ReadHeader(input.data, old(input.pos), expected)
    ensures r.Ok? ==> input.pos == r.value
  {
    var _ :- ReadVarInt(input);
    var id :- ReadVarInt(input);
    var _ :- Io(id == -1, PrematureEnd);
    var _ :- Io(id != expected, InvalidPacket);
    return Ok(input.pos);
  }

  /** Reads the status reply from the stream. */
  method ReadStatusReply(input: InputStream) returns (r: Result<seq<uint8>>)
    requires input.Valid()
    modifies input
    ensures input.Valid()
    ensures match ReadStatus(input.data, old(input.pos))
      case Ok(status) => r == Ok(status.value) && input.pos == status.next
      case Err(f) => r == Err(f)
  {
    var _ :- ReadReplyHeader(input, PacketStatusRequest as int32);
    var length :- ReadVarInt(input);
    var _ :- Io(length == -1, PrematureEnd);
    var _ :- Io(length == 0, UnexpectedValue);
    if length < 0 {
      return Err(NegativeArraySize);
    }
    r := input.ReadFully(length as int);
  }

  /** The exchange on the streams of a freshly connected socket: `input` is what the server
      sends, `out` what the client sends, `timestamp` the clock reading taken for the ping. */
  method RunExchange(host: Hostname, port: int32, timestamp: int64, input: InputStream, out: OutputStream)
    returns (r: Result<Read<seq<uint8>>>)
    requires input.Valid() && input.pos == 0
    modifies input, out
    ensures var session := Exchange(host, port, timestamp, input.data);
      out.written == old(out.written) + session.written && r == session.outcome
    ensures r.Ok? ==> input.pos == r.value.next
  {
    WriteHandshake(out, host, port);
    WriteStatusRequest(out);
    ghost var sent := HandshakeFrame(host, port) + StatusRequest();
    assert out.written == old(out.written) + sent;
    var json :- ReadStatusReply(input);
    ghost var before := out.written;
    WritePing(out, timestamp);
    assert out.written == old(out.written) + (sent + PingPacket(timestamp)) by {
      assert before + PingPacket(timestamp) == old(out.written) + (sent + PingPacket(timestamp));
    }
    var end :- ReadReplyHeader(input, PacketPing as int32);
    return Ok(Read(json, end));
  }

  /** `getPing(options)`: the hostname and the port are checked before the socket is made. */
  method GetPing(options: PingOptions, timestamp: int64, input: InputStream, out: OutputStream)
    returns (r: Result<Read<seq<uint8>>>)
    requires input.Valid() && input.pos == 0
    modifies input, out
    ensures var session := Ping(options.hostname, options.port, timestamp, input.data);
      out.written == old(out.written) + session.written && r == session.outcome
    ensures r.Ok? ==> input.pos == r.value.next
  {
    var host :- Validate(options.hostname, HostnameNull);
    if !ValidPort(options.port) {
      return Err(PortOutOfRange(options.port));
    }
    r := RunExchange(host, options.port, timestamp, input, out);
  }

  /** `getPing(hostname)`: the defaults of a fresh PingOptions with the hostname set. */
  method GetPingByHostname(hostname: Option<Hostname>, timestamp: int64, input: InputStream, out: OutputStream)
    returns (r: Result<Read<seq<uint8>>>)
    requires input.Valid() && input.pos == 0
    modifies input, out
    ensures var session := Ping(hostname, DefaultPort, timestamp, input.data);
      out.written == old(out.written) + session.written && r == session.outcome
    ensures r.Ok? ==> input.pos == r.value.next
  {
    var options := new PingOptions();
    options := options.SetHostname(hostname);
    r := GetPing(options, timestamp, input, out);
  }

  /** A handshake as the server reads it. */
  datatype Handshake = Handshake(version: int32, host: seq<uint8>, port: nat, nextState: int32)

  /** The server's side of the handshake: a frame length covering exactly the rest of `s`,
      packet id 0x00, then the fields. */
  function ParseHandshake(s: seq<uint8>): Option<Handshake>
  {
    match Decode(s, 0)
    case Err(_) => None
    case Ok(size) =>
      if size.next + size.value as int != |s| || size.next >= |s| || s[size.next] != PacketHandshake then None
      else ParseFields(s, size.next + 1)
  }

  /** The handshake's fields from `pos` on: the protocol version, the hostname's length and
      bytes, a two-byte big-endian port and the next state, with nothing left over. */
  function ParseFields(s: seq<uint8>, pos: nat): Option<Handshake>
  {
    match Decode(s, pos)
    case Err(_) => None
    case Ok(version) =>
      match Decode(s, version.next)
      case Err(_) => None
      case Ok(length) =>
        var portAt := length.next + length.value as int;
        if length.value < 0 || portAt + 2 > |s| then None
        else
          match Decode(s, portAt + 2)
          case Err(_) => None
          case Ok(state) =>
            if state.next != |s| then None
            else Some(Handshake(version.value, s[length.next..portAt],
                                BigEndian(s[portAt..portAt + 2]), state.value))
  }

  /** Where the parts of a handshake frame sit in `s`: the length prefix `n` covering the rest
      of `s`, the packet id 0x00, and from `p0` on the version, the hostname's length at `p1`,
      the hostname at `p2`, two port bytes at `p3` and the next state, ending with `s`. */
  predicate HandshakeAt(s: seq<uint8>, n: int32, version: int32, host: seq<uint8>, port: seq<uint8>,
                        state: int32, p0: nat, p1: nat, p2: nat, p3: nat)
  {
    && VarIntAt(s, 0, n) && |Encode(n)| + n as int == |s|
    && p0 == |Encode(n)| + 1 && p0 <= |s| && s[|Encode(n)|..p0] == [PacketHandshake]
    && VarIntAt(s, p0, version) && p1 == p0 + |Encode(version)|
    && |host| < 0x8000_0000
    && VarIntAt(s, p1, |host| as int32) && p2 == p1 + |Encode(|host| as int32)| && p3 == p2 + |host|
    && p3 + 2 <= |s| && s[p2..p3] == host && s[p3..p3 + 2] == port
    && VarIntAt(s, p3 + 2, state) && p3 + 2 + |Encode(state)| == |s|
  }

  /** Where the fields of the handshake frame sit. */
  lemma HandshakeLayout(host: Hostname, port: int32)
    ensures var frame := HandshakeFrame(host, port);
      var n := |HandshakePayload(host, port)| as int32;
      var p0 := |Encode(n)| + 1;
      var p1 := p0 + |Encode(ProtocolVersion)|;
      var p2 := p1 + |Encode(|host| as int32)|;
      HandshakeAt(frame, n, ProtocolVersion, host, ShortBytes(port), StatusHandshake, p0, p1, p2, p2 + |host|)
  {
    var n := |HandshakePayload(host, port)| as int32;
    Pieces(Encode(n), [PacketHandshake], Encode(ProtocolVersion), Encode(|host| as int32), host,
           ShortBytes(port), Encode(StatusHandshake));
  }

  /** The server's parse of fields that have been located. */
  lemma FieldsLocated(s: seq<uint8>, version: int32, host: seq<uint8>, port: seq<uint8>,
                      state: int32, p0: nat, p1: nat, p2: nat, p3: nat)
    requires VarIntAt(s, p0, version) && p1 == p0 + |Encode(version)|
    requires |host| < 0x8000_0000
    requires VarIntAt(s, p1, |host| as int32) && p2 == p1 + |Encode(|host| as int32)| && p3 == p2 + |host|
    requires p3 + 2 <= |s| && s[p2..p3] == host && s[p3..p3 + 2] == port
    requires VarIntAt(s, p3 + 2, state) && p3 + 2 + |Encode(state)| == |s|
    ensures ParseFields(s, p0) == Some(Handshake(version, host, BigEndian(port), state))
  {
    DecodeAt(s, p0, version, p1);
    DecodeAt(s, p1, |host| as int32, p2);
    DecodeAt(s, p3 + 2, state, |s|);
    assert p2 + (|host| as int32) as int == p3;
  }

  /** The server's parse of a frame whose length prefix and packet id have been located. */
  lemma FrameLocated(s: seq<uint8>, n: int32, p0: nat)
    requires VarIntAt(s, 0, n) && |Encode(n)| + n as int == |s|
    requires p0 == |Encode(n)| + 1 && p0 <= |s| && s[|Encode(n)|..p0] == [PacketHandshake]
    ensures ParseHandshake(s) == ParseFields(s, p0)
  {
    assert s[|Encode(n)|] == s[|Encode(n)|..p0][0];
    DecodeAt(s, 0, n, |Encode(n)|);
  }

  /** A server parses a located handshake frame into its fields. */
  lemma HandshakeParses(s: seq<uint8>, n: int32, version: int32, host: seq<uint8>, port: seq<uint8>,
                        state: int32, p0: nat, p1: nat, p2: nat, p3: nat)
    requires HandshakeAt(s, n, version, host, port, state, p0, p1, p2, p3)
    ensures ParseHandshake(s) == Some(Handshake(version, host, BigEndian(port), state))
  {
    assert ParseHandshake(s) == ParseFields(s, p0) by { FrameLocated(s, n, p0); }
    FieldsLocated(s, version, host, port, state, p0, p1, p2, p3);
  }

  /** The handshake frame says what it should: a server reading it gets protocol version 4,
      the hostname, the port's low 16 bits and next state 1, and the frame's length prefix
      covers the body exactly. */
  lemma HandshakeRoundTrip(host: Hostname, port: int32)
    ensures ParseHandshake(HandshakeFrame(host, port)) ==
      Some(Handshake(ProtocolVersion, host, port as int % 0x1_0000, StatusHandshake))
  {
    var n := |HandshakePayload(host, port)| as int32;
    var p0 := |Encode(n)| + 1;
    var p1 := p0 + |Encode(ProtocolVersion)|;
    var p2 := p1 + |Encode(|host| as int32)|;
    HandshakeLayout(host, port);
    HandshakeParses(HandshakeFrame(host, port), n, ProtocolVersion, host, ShortBytes(port), StatusHandshake,
                    p0, p1, p2, p2 + |host|);
  }

  /** The ping's size byte counts the bytes after it, and those are the packet id and the
      64-bit pattern of the timestamp, most significant byte first. */
  lemma PingCarriesTimestamp(timestamp: int64)
    ensures var p := PingPacket(timestamp);
      && |p| == 10 && p[0] as int == |p| - 1 && p[1] == PacketPing
      && BigEndian(p[2..6]) * Two32 + BigEndian(p[6..]) == timestamp as int % 0x1_0000_0000_0000_0000
  {
    var bytes := LongBytes(timestamp);
    assert PingPacket(timestamp)[2..6] == bytes[..4] && PingPacket(timestamp)[6..] == bytes[4..];
  }

  /** What the client sends, byte for byte, for hostname "a" on the default port, and the ping
      for timestamp 1. */
  lemma PacketVectors()
    ensures HandshakeFrame([0x61], DefaultPort) == [0x07, 0x00, 0x04, 0x01, 0x61, 0x63, 0xDD, 0x01]
    ensures StatusRequest() == [0x01, 0x00]
    ensures PingPacket(1) == [0x09, 0x01, 0x00, 0x00, 0x00, 0x00, 0x00, 0x00, 0x00, 0x01]
  {
    assert Encode(7) == [0x07];
  }

  /** How a reply header ends, once its two VarInts have been read: the -1 check comes
      before the packet-id check. */
  lemma HeaderChecks(s: seq<uint8>, pos: nat, expected: int32, size: Read<int32>, id: Read<int32>)
    requires Decode(s, pos) == Ok(size) && Decode(s, size.next) == Ok(id)
    ensures ReadHeader(s, pos, expected) ==
      if id.value == -1 then Err(Protocol(PrematureEnd))
      else if id.value != expected then Err(Protocol(InvalidPacket))
      else Ok(id.next)
  {
  }

  /** `HeaderChecks` for a header whose VarInts have been located. */
  lemma HeaderLocated(s: seq<uint8>, pos: nat, expected: int32, size: int32, id: int32)
    requires VarIntAt(s, pos, size) && VarIntAt(s, pos + |Encode(size)|, id)
    ensures id == -1 ==> ReadHeader(s, pos, expected) == Err(Protocol(PrematureEnd))
    ensures id != -1 && id != expected ==> ReadHeader(s, pos, expected) == Err(Protocol(InvalidPacket))
    ensures id != -1 && id == expected ==> ReadHeader(s, pos, expected) == Ok(pos + |Encode(size)| + |Encode(id)|)
  {
    var p1 := pos + |Encode(size)|;
    var p2 := p1 + |Encode(id)|;
    DecodeAt(s, pos, size, p1);
    DecodeAt(s, p1, id, p2);
    HeaderChecks(s, pos, expected, Read(size, p1), Read(id, p2));
    if id != -1 && id == expected {
      assert ReadHeader(s, pos, expected) == Ok(p2);
    }
  }

  /** A header whose packet id is the expected one (and not -1) is accepted, and reading
      stops right after the id. This is the accepting case of `HeaderLocated`, with the end
      position named so that callers' goals match it directly. */
  lemma HeaderAccepted(s: seq<uint8>, pos: nat, expected: int32, size: int32, next: nat)
    requires expected != -1 && VarIntAt(s, pos, size) && VarIntAt(s, pos + |Encode(size)|, expected)
    requires next == pos + |Encode(size)| + |Encode(expected)|
    ensures ReadHeader(s, pos, expected) == Ok(next)
  {
    HeaderLocated(s, pos, expected, size, expected);
  }

  /** How the status reply ends, once its header has passed and its length has been read. */
  lemma StatusChecks(s: seq<uint8>, pos: nat, body: nat, length: Read<int32>)
    requires ReadHeader(s, pos, PacketStatusRequest as int32) == Ok(body) && Decode(s, body) == Ok(length)
    ensures ReadStatus(s, pos) ==
      if length.value == -1 then Err(Protocol(PrematureEnd))
      else if length.value == 0 then Err(Protocol(UnexpectedValue))
      else if length.value < 0 then Err(NegativeArraySize)
      else if length.next + length.value as int > |s| then Err(EndOfStream)
      else Ok(Read(s[length.next..length.next + length.value as int], length.next + length.value as int))
  {
  }

  /** `StatusChecks` for a length whose VarInt has been located. */
  lemma StatusLocated(s: seq<uint8>, pos: nat, body: nat, length: int32)
    requires ReadHeader(s, pos, PacketStatusRequest as int32) == Ok(body) && VarIntAt(s, body, length)
    ensures length == -1 ==> ReadStatus(s, pos) == Err(Protocol(PrematureEnd))
    ensures length == 0 ==> ReadStatus(s, pos) == Err(Protocol(UnexpectedValue))
    ensures length < -1 ==> ReadStatus(s, pos) == Err(NegativeArraySize)
    ensures var at := body + |Encode(length)|;
      length > 0 && at + length as int > |s| ==> ReadStatus(s, pos) == Err(EndOfStream)
    ensures var at := body + |Encode(length)|;
      length > 0 && at + length as int <= |s| ==>
        ReadStatus(s, pos) == Ok(Read(s[at..at + length as int], at + length as int))
  {
    DecodeAt(s, body, length, body + |Encode(length)|);
    StatusChecks(s, pos, body, Read(length, body + |Encode(length)|));
  }

  /** A status body whose positive length is followed by that many bytes yields them. This is
      the accepting case of `StatusLocated`, with the payload and end position named so that
      callers' goals match it directly. */
  lemma StatusAccepted(s: seq<uint8>, pos: nat, body: nat, length: int32, json: seq<uint8>, next: nat)
    requires ReadHeader(s, pos, PacketStatusRequest as int32) == Ok(body) && VarIntAt(s, body, length)
    requires 0 < length && length as int == |json|
    requires next == body + |Encode(length)| + |json| && next <= |s| && s[body + |Encode(length)|..next] == json
    ensures ReadStatus(s, pos) == Ok(Read(json, next))
  {
    var at := body + |Encode(length)|;
    DecodeAt(s, body, length, at);
    StatusChecks(s, pos, body, Read(length, at));
  }

  /** The session once the status reply and the pong header have been read. */
  lemma SessionOf(host: Hostname, port: int32, timestamp: int64, reply: seq<uint8>,
                  status: Read<seq<uint8>>, end: nat)
    requires ValidPort(port)
    requires ReadStatus(reply, 0) == Ok(status) && ReadHeader(reply, status.next, PacketPing as int32) == Ok(end)
    ensures Ping(Some(host), port, timestamp, reply) ==
      Session(HandshakeFrame(host, port) + StatusRequest() + PingPacket(timestamp), Ok(Read(status.value, end)))
  {
  }

  /** Where the parts of a reply the client accepts sit: a status header (any size, id 0x00)
      at 0, a positive length at `p1`, that many bytes of JSON at `p2`, and a pong header (any
      size, id 0x01) at `p3` whose id ends at `end`. */
  predicate ReplyAt(reply: seq<uint8>, statusSize: int32, json: seq<uint8>, pongSize: int32,
                    p0: nat, p1: nat, p2: nat, p3: nat, p4: nat, end: nat)
  {
    && VarIntAt(reply, 0, statusSize) && p0 == |Encode(statusSize)|
    && VarIntAt(reply, p0, PacketStatusRequest as int32) && p1 == p0 + |Encode(PacketStatusRequest as int32)|
    && 0 < |json| < 0x8000_0000
    && VarIntAt(reply, p1, |json| as int32) && p2 == p1 + |Encode(|json| as int32)|
    && p3 == p2 + |json| && p3 <= |reply| && reply[p2..p3] == json
    && VarIntAt(reply, p3, pongSize) && p4 == p3 + |Encode(pongSize)|
    && VarIntAt(reply, p4, PacketPing as int32) && end == p4 + |Encode(PacketPing as int32)|
  }

  /** The session on a reply whose parts have been located: the client sends the handshake,
      the status request and the ping, and returns the JSON bytes, having read up to `end`. */
  lemma AcceptsLocatedReply(host: Hostname, port: int32, timestamp: int64, reply: seq<uint8>,
                            statusSize: int32, json: seq<uint8>, pongSize: int32,
                            p0: nat, p1: nat, p2: nat, p3: nat, p4: nat, end: nat)
    requires ValidPort(port)
    requires ReplyAt(reply, statusSize, json, pongSize, p0, p1, p2, p3, p4, end)
    ensures Ping(Some(host), port, timestamp, reply) ==
      Session(HandshakeFrame(host, port) + StatusRequest() + PingPacket(timestamp),
              Ok(Read(json, end)))
  {
    assert ReadHeader(reply, 0, PacketStatusRequest as int32) == Ok(p1) by {
      HeaderAccepted(reply, 0, PacketStatusRequest as int32, statusSize, p1);
    }
    assert ReadStatus(reply, 0) == Ok(Read(json, p3)) by {
      StatusAccepted(reply, 0, p1, |json| as int32, json, p3);
    }
    assert ReadHeader(reply, p3, PacketPing as int32) == Ok(end) by {
      HeaderAccepted(reply, p3, PacketPing as int32, pongSize, end);
    }
    SessionOf(host, port, timestamp, reply, Read(json, p3), end);
  }

  /** The reply a well-behaved server sends: a status reply and a pong header, each with any
      size prefix, then any bytes (the pong's echo of the timestamp, which is never read). */
  function WellFormedReply(statusSize: int32, json: seq<uint8>, pongSize: int32, echo: seq<uint8>): seq<uint8>
    requires |json| < 0x8000_0000
  {
    Encode(statusSize) + Encode(PacketStatusRequest as int32) + Encode(|json| as int32)
      + json + Encode(pongSize) + Encode(PacketPing as int32) + echo
  }

  /** Where the parts of a well-formed reply sit. */
  lemma WellFormedReplyLayout(statusSize: int32, json: seq<uint8>, pongSize: int32, echo: seq<uint8>)
    requires 0 < |json| < 0x8000_0000
    ensures var reply := WellFormedReply(statusSize, json, pongSize, echo);
      var p0 := |Encode(statusSize)|;
      var p1 := p0 + |Encode(PacketStatusRequest as int32)|;
      var p2 := p1 + |Encode(|json| as int32)|;
      var p3 := p2 + |json|;
      var p4 := p3 + |Encode(pongSize)|;
      ReplyAt(reply, statusSize, json, pongSize, p0, p1, p2, p3, p4, |reply| - |echo|)
  {
    Pieces(Encode(statusSize), Encode(PacketStatusRequest as int32), Encode(|json| as int32), json,
           Encode(pongSize), Encode(PacketPing as int32), echo);
  }

  /** A reply header is read from its own bytes only. */
  lemma HeaderPrefix(s: seq<uint8>, t: seq<uint8>, pos: nat, expected: int32)
    requires ReadHeader(s, pos, expected).Ok?
    requires var n := ReadHeader(s, pos, expected).value; n <= |t| && s[..n] == t[..n]
    ensures ReadHeader(t, pos, expected) == ReadHeader(s, pos, expected)
  {
    var n := ReadHeader(s, pos, expected).value;
    var size := Decode(s, pos).value;
    SharedPrefix(s, t, size.next, n);
    DecodePrefix(s, t, pos);
    DecodePrefix(s, t, size.next);
  }

  /** The status reply is read from its own bytes only. */
  lemma StatusPrefix(s: seq<uint8>, t: seq<uint8>, pos: nat)
    requires ReadStatus(s, pos).Ok?
    requires var n := ReadStatus(s, pos).value.next; n <= |t| && s[..n] == t[..n]
    ensures ReadStatus(t, pos) == ReadStatus(s, pos)
  {
    var n := ReadStatus(s, pos).value.next;
    var body := ReadHeader(s, pos, PacketStatusRequest as int32).value;
    var length := Decode(s, body).value;
    SharedPrefix(s, t, body, n);
    HeaderPrefix(s, t, pos, PacketStatusRequest as int32);
    SharedPrefix(s, t, length.next, n);
    DecodePrefix(s, t, body);
    assert s[length.next..n] == s[..n][length.next..] == t[..n][length.next..] == t[length.next..n];
  }

  /** The client stops reading right after the pong's packet id: whatever the server sends
      after it (the echoed timestamp included) never changes what getPing does. */
  lemma EchoNeverRead(host: Hostname, port: int32, timestamp: int64, reply: seq<uint8>, extra: seq<uint8>)
    requires Ping(Some(host), port, timestamp, reply).outcome.Ok?
    ensures var end := Ping(Some(host), port, timestamp, reply).outcome.value.next;
      end <= |reply| && Ping(Some(host), port, timestamp, reply[..end] + extra) == Ping(Some(host), port, timestamp, reply)
  {
    var status := ReadStatus(reply, 0).value;
    var end := ReadHeader(reply, status.next, PacketPing as int32).value;
    var t := reply[..end] + extra;
    assert reply[..end] == t[..end];
    SharedPrefix(reply, t, status.next, end);
    StatusPrefix(reply, t, 0);
    HeaderPrefix(reply, t, status.next, PacketPing as int32);
  }

  /** A null hostname is refused before anything is sent. */
  lemma NullHostnameRejected(port: int32, timestamp: int64, reply: seq<uint8>)
    ensures Ping(None, port, timestamp, reply) == Session([], Err(Validation(HostnameNull)))
  {
  }

  /** A port outside 0 to 65535 is refused when the socket address is made, before anything
      is sent; a port inside that range is never the cause of a failure. */
  lemma PortRejected(host: Hostname, port: int32, timestamp: int64, reply: seq<uint8>)
    ensures Ping(Some(host), port, timestamp, reply).outcome == Err(PortOutOfRange(port)) <==> !ValidPort(port)
    ensures !ValidPort(port) ==> Ping(Some(host), port, timestamp, reply).written == []
  {
  }

  /** A status reply that is refused ends the session after the handshake and the status
      request: no ping is sent. */
  lemma StatusRejected(host: Hostname, port: int32, timestamp: int64, reply: seq<uint8>)
    requires ValidPort(port)
    requires ReadStatus(reply, 0).Err?
    ensures Ping(Some(host), port, timestamp, reply) ==
      Session(HandshakeFrame(host, port) + StatusRequest(), Err(ReadStatus(reply, 0).failure))
  {
  }

  /** A pong header that is refused ends the session after the ping has been sent. */
  lemma PongRejected(host: Hostname, port: int32, timestamp: int64, reply: seq<uint8>)
    requires ValidPort(port)
    requires ReadStatus(reply, 0).Ok? && ReadHeader(reply, ReadStatus(reply, 0).value.next, PacketPing as int32).Err?
    ensures Ping(Some(host), port, timestamp, reply) ==
      Session(HandshakeFrame(host, port) + StatusRequest() + PingPacket(timestamp),
              Err(ReadHeader(reply, ReadStatus(reply, 0).value.next, PacketPing as int32).failure))
  {
  }

  /** "Server prematurely ended stream." about a header means that its packet id was read
      and really is -1 (bytes FF FF FF FF then one of 0F, 1F, ..., 7F, by `MinusOneExactly`). */
  lemma HeaderPremature(s: seq<uint8>, pos: nat, expected: int32)
    ensures ReadHeader(s, pos, expected) == Err(Protocol(PrematureEnd)) <==>
      && Decode(s, pos).Ok?
      && Decode(s, Decode(s, pos).value.next).Ok?
      && Decode(s, Decode(s, pos).value.next).value.value == -1
  {
    assert |PrematureEnd| != |InvalidPacket|;
  }

  /** "Server prematurely ended stream." about the status reply means that its packet id or
      its length was read and really is -1. */
  lemma StatusPremature(s: seq<uint8>, pos: nat)
    ensures var header := ReadHeader(s, pos, PacketStatusRequest as int32);
      ReadStatus(s, pos) == Err(Protocol(PrematureEnd)) <==>
        || header == Err(Protocol(PrematureEnd))
        || (header.Ok? && Decode(s, header.value).Ok? && Decode(s, header.value).value.value == -1)
  {
    assert |PrematureEnd| != |UnexpectedValue|;
  }

  /** Status replies refused at their header: nothing at all, an id of -1, a wrong id, and a
      size VarInt that runs past five bytes. */
  lemma HeaderRejectionVectors()
    ensures ReadStatus([], 0) == Err(EndOfStream)
    ensures ReadStatus([0x01, 0xFF, 0xFF, 0xFF, 0xFF, 0x0F], 0) == Err(Protocol(PrematureEnd))
    ensures ReadStatus([0x01, 0x05], 0) == Err(Protocol(InvalidPacket))
    ensures ReadStatus([0xFF, 0xFF, 0xFF, 0xFF, 0xFF, 0x00], 0) == Err(VarIntTooBig)
  {
  }

  /** Status replies refused at their length: zero, and more bytes than the server sends. */
  lemma LengthRejectionVectors()
    ensures ReadStatus([0x01, 0x00, 0x00], 0) == Err(Protocol(UnexpectedValue))
    ensures ReadStatus([0x01, 0x00, 0x03, 0x7B, 0x7D], 0) == Err(EndOfStream)
  {
  }

  /** A status length of -1 (FF FF FF FF 0F) is reported as a premature end of stream. */
  lemma MinusOneLengthVector()
    ensures ReadStatus([0x01, 0x00, 0xFF, 0xFF, 0xFF, 0xFF, 0x0F], 0) == Err(Protocol(PrematureEnd))
  {
  }

  /** Any other negative status length (here -2147483648) fails when the array is made. */
  lemma NegativeLengthVector()
    ensures ReadStatus([0x01, 0x00, 0x80, 0x80, 0x80, 0x80, 0x08], 0) == Err(NegativeArraySize)
  {
  }

  /** A server's whole answer: the status reply `{` (size 3, id 0x00, length 1), then the pong
      (size 9, id 0x01, the timestamp 1 echoed back). */
  const ExampleReply: seq<uint8> := [0x03, 0x00, 0x01, 0x7B, 0x09, 0x01, 0, 0, 0, 0, 0, 0, 0, 0x01]

  /** The parts of `ExampleReply`: the status reply yields `{`, and the pong is accepted right
      after its packet id. */
  lemma ExampleReplyParts()
    ensures ReadStatus(ExampleReply, 0) == Ok(Read([0x7B], 4))
    ensures ReadHeader(ExampleReply, 4, PacketPing as int32) == Ok(6)
  {
    assert ExampleReply[3..4] == [0x7B];
  }

  /** One whole session, byte for byte: getPing for hostname "a" on the default port at
      timestamp 1 sends the handshake, the status request and the ping, returns `{`, and reads
      nothing of the pong after its packet id. */
  lemma SessionVector()
    ensures Ping(Some([0x61]), DefaultPort, 1, ExampleReply) ==
      Session([0x07, 0x00, 0x04, 0x01, 0x61, 0x63, 0xDD, 0x01, 0x01, 0x00,
                0x09, 0x01, 0x00, 0x00, 0x00, 0x00, 0x00, 0x00, 0x00, 0x01],
               Ok(Read([0x7B], 6)))
  {
    var sent := HandshakeFrame([0x61], DefaultPort) + StatusRequest() + PingPacket(1);
    assert sent == [0x07, 0x00, 0x04, 0x01, 0x61, 0x63, 0xDD, 0x01, 0x01, 0x00,
                    0x09, 0x01, 0x00, 0x00, 0x00, 0x00, 0x00, 0x00, 0x00, 0x01] by {
      PacketVectors();
    }
    assert Ping(Some([0x61]), DefaultPort, 1, ExampleReply) == Session(sent, Ok(Read([0x7B], 6))) by {
      ExampleReplyParts();
      SessionOf([0x61], DefaultPort, 1, ExampleReply, Read([0x7B], 4), 6);
    }
  }
}
