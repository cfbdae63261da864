# Minecraft server list ping client, modelled in Dafny

This project models the core of `Pinger.java`, a client for the Minecraft "Server List Ping"
exchange:

- the VarInt codec of `PingUtil` (`writeVarInt`, `readVarInt`);
- the helpers `io` and `validate`;
- the bytes `getPing` writes and the checks it applies to the server's two replies;
- the `PingOptions` settings object.

The modules follow the Java source:

- `Streams` (`streams.dfy`) holds the Java values and streams the code works on:
  - `int32` and `int64`, and bytes as `uint8`;
  - the exceptions, as a `Failure` inside a `Result`;
  - a `DataInputStream` as an `InputStream` class (bytes and a cursor);
  - a `DataOutputStream` as an `OutputStream` class (the bytes written so far);
  - the byte layouts of `writeShort` and `writeLong`.
- `PingUtil` (`ping_util.dfy`) holds:
  - the packet constants, `validate` and `io`;
  - the VarInt codec: `Encode`/`Decode` as functions, and `WriteVarInt`/`ReadVarInt` as methods with the source's loops, proved against those functions.
- `Options` (`ping_options.dfy`) holds `PingOptions` as a class with its defaults and fluent setters.
- `Pinger` (`pinger.dfy`) holds `getPing`:
  - `Ping` is the whole of `getPing` as a function. It takes the hostname, the port, a timestamp and the server's reply bytes, and returns the bytes the client writes and either the status JSON bytes or the exception. It checks the hostname and the port, then hands over to `Exchange`.
  - `Exchange` is the part that runs on a connected socket: the handshake, the status request, the status reply, the ping and the pong's header.
  - `GetPing` is the same, step by step, over the two streams. Its part on the connected socket, `RunExchange`, is proved equal to `Exchange`, and `GetPing` is proved equal to `Ping`.
  - A server-side parser of the handshake, `ParseHandshake`, shows that the handshake frame carries what it should.

A Java `int` is an `int32`. The codec works on its 32-bit two's complement pattern, a natural below
2^32:

- `x & 0x7F` is `x % 0x80`;
- `x >>> 7` is `x / 0x80`;
- `(k & 0x80) == 128` is `k >= 0x80`;
- the OR of groups that do not overlap is a sum;
- at the fifth byte, the group's top three bits fall off bit 31 (`% 2^32`).

`readByte` sign-extends, but the masks `& 0x7F` and `& 0x80` see the same bits either way, so bytes
are unsigned here.

Some points where the code behaves otherwise than a reader might expect; the model follows the code:

- "Server prematurely ended stream." is not a sign that the input ran out. `readByte` throws an `EOFException` first. That message comes only when a packet id or a length really decodes to -1. That is `FF FF FF FF` followed by a final byte below 0x80 whose low four bits are set: `0F`, `1F`, `2F`, ..., `7F`.
- `readVarInt` throws "VarInt too big" on a sixth byte whatever that byte's continuation bit.
- The hostname is only checked for null. An empty hostname is sent.
- The port is range-checked by `new InetSocketAddress` (line 75), not by `validate`. A port outside 0 to 65535 throws an IllegalArgumentException before anything is sent.
- `close()` runs only on the success path.

## Model

| member | source | states |
|---|---|---|
| Streams.Unsigned | src/org/teammoose/util/Pinger.java:385-392 | the 32-bit pattern `writeVarInt` shifts with `>>>` is below 2^32 and below 2^31 exactly for a non-negative int |
| Streams.Signed | src/org/teammoose/util/Pinger.java:372 | the int `readVarInt` returns from a pattern is negative exactly when bit 31 is set |
| Streams.SignedUnsigned | src/org/teammoose/util/Pinger.java:355-394 | the int and its 32-bit pattern determine each other |
| Streams.ShortBytes | src/org/teammoose/util/Pinger.java:93 | `writeShort(port)` writes two bytes that read big-endian as the port's low 16 bits |
| Streams.WordBytes | src/org/teammoose/util/Pinger.java:126 | four bytes that read big-endian as the given 32-bit pattern |
| Streams.LongBytes | src/org/teammoose/util/Pinger.java:126 | `writeLong(timestamp)` writes eight bytes whose two big-endian halves make the timestamp's 64-bit pattern |
| Streams.InputStream.ReadByte | src/org/teammoose/util/Pinger.java:361 | `readByte` yields the next byte and advances by one, or throws EOFException at the end without moving |
| Streams.InputStream.ReadFully | src/org/teammoose/util/Pinger.java:119 | `readFully` yields exactly the next n bytes, or throws EOFException after consuming the rest |
| Streams.OutputStream.WriteByte | src/org/teammoose/util/Pinger.java:87 | `writeByte` appends one byte and changes nothing else |
| Streams.OutputStream.Write | src/org/teammoose/util/Pinger.java:98 | `write(byte[])` appends exactly those bytes |
| Streams.OutputStream.WriteShort | src/org/teammoose/util/Pinger.java:93 | `writeShort` appends the two bytes of `ShortBytes` |
| Streams.OutputStream.WriteLong | src/org/teammoose/util/Pinger.java:126 | `writeLong` appends the eight bytes of `LongBytes` |
| PingUtil.Validate | src/org/teammoose/util/Pinger.java:334-340 | `validate` passes exactly a non-null reference (unchanged) and otherwise throws a RuntimeException with the given message |
| PingUtil.Io | src/org/teammoose/util/Pinger.java:342-349 | `io` throws an IOException with the given message exactly when the condition holds |
| PingUtil.Encode | src/org/teammoose/util/Pinger.java:380-394 | `writeVarInt` writes one to five bytes for any int |
| PingUtil.EncodeBits | src/org/teammoose/util/Pinger.java:383-393 | `writeVarInt` always writes at least one byte |
| PingUtil.EncodeLength | src/org/teammoose/util/Pinger.java:383-393 | `writeVarInt` writes one byte per started 7-bit group of the pattern: 1 to 5 bytes |
| PingUtil.EncodeBitsShape | src/org/teammoose/util/Pinger.java:385-391 | every byte written but the last has the continuation bit 0x80 set, and the last has it clear |
| PingUtil.AddGroup | src/org/teammoose/util/Pinger.java:363 | OR-ing in group j keeps the accumulated pattern below the next group's weight and below 2^32 |
| PingUtil.DecodeFrom | src/org/teammoose/util/Pinger.java:359-370 | the loop consumes at most five bytes from where it starts, and fails only with EOFException or "VarInt too big" |
| PingUtil.Decode | src/org/teammoose/util/Pinger.java:355-373 | `readVarInt` consumes between 1 and 5 bytes when it returns |
| PingUtil.DecodeFromEncode | src/org/teammoose/util/Pinger.java:355-394 | reading back the bytes written for a pattern, from any group on, adds exactly that pattern's groups and stops after its last byte |
| PingUtil.RoundTrip | src/org/teammoose/util/Pinger.java:355-394 | `readVarInt` applied to what `writeVarInt(v)` wrote returns v (negatives included) and consumes exactly those bytes, whatever follows |
| PingUtil.DecodeFromPrefix | src/org/teammoose/util/Pinger.java:359-370 | the loop reads no byte past the one that ends the VarInt |
| PingUtil.DecodePrefix | src/org/teammoose/util/Pinger.java:355-373 | `readVarInt`'s result does not depend on any byte after the VarInt |
| PingUtil.DecodeFromOutcome | src/org/teammoose/util/Pinger.java:359-370 | how the loop ends, from the run of continuation bytes: success after the first byte without the bit, "VarInt too big" when five in a row are followed by a sixth byte, EOFException otherwise |
| PingUtil.DecodeOutcome | src/org/teammoose/util/Pinger.java:355-373 | `readVarInt` succeeds exactly when a byte without the continuation bit comes among the first five, and then consumes up to and including it |
| PingUtil.TooBigExactly | src/org/teammoose/util/Pinger.java:359-370 | "VarInt too big" exactly when the first five bytes all have the continuation bit and a sixth byte exists, whatever that byte |
| PingUtil.AllOnesFrom | src/org/teammoose/util/Pinger.java:359-370 | the loop yields the all-ones pattern exactly when the remaining bytes up to group 3 are FF and the group-4 byte ends with its low four bits set |
| PingUtil.MinusOneExactly | src/org/teammoose/util/Pinger.java:355-373 | `readVarInt` returns -1 exactly on FF FF FF FF followed by a final byte below 0x80 whose low four bits are set (0F, 1F, ..., 7F) |
| PingUtil.Vectors | src/org/teammoose/util/Pinger.java:380-394 | 0 → 00, 300 → AC 02, 2147483647 → FF FF FF FF 07, -1 → FF FF FF FF 0F |
| PingUtil.WriteVarInt | src/org/teammoose/util/Pinger.java:380-394 | the loop appends exactly `Encode(value)` to the stream |
| PingUtil.ReadVarInt | src/org/teammoose/util/Pinger.java:355-373 | the loop returns what `Decode` yields from the stream's position and leaves the stream just past the VarInt, or throws what `Decode` throws |
| Options.PingOptions.constructor | src/org/teammoose/util/Pinger.java:153-156 | a fresh PingOptions has no hostname, port 25565, timeout 2000 and charset "UTF-8" |
| Options.PingOptions.SetHostname | src/org/teammoose/util/Pinger.java:158-162 | sets only the hostname (null allowed) and returns the same object |
| Options.PingOptions.SetPort | src/org/teammoose/util/Pinger.java:164-168 | sets only the port and returns the same object |
| Options.PingOptions.SetTimeout | src/org/teammoose/util/Pinger.java:170-174 | sets only the timeout and returns the same object |
| Options.PingOptions.SetCharset | src/org/teammoose/util/Pinger.java:176-180 | sets only the charset and returns the same object |
| Pinger.HandshakePayload | src/org/teammoose/util/Pinger.java:84-95 | the handshake body is 6 to 10 bytes longer than the hostname |
| Pinger.HandshakeFrame | src/org/teammoose/util/Pinger.java:84-98 | the handshake sent is a one- to five-byte length prefix followed by the body, 7 to 15 bytes longer than the hostname |
| Pinger.StatusRequest | src/org/teammoose/util/Pinger.java:102-103 | the status request is 2 bytes: a size of 1 counting the byte after it, then the id 0x00 |
| Pinger.PingPacket | src/org/teammoose/util/Pinger.java:124-126 | the ping is 10 bytes: a size of 9 counting the bytes after it, the id 0x01, then the 8 bytes of `writeLong` |
| Pinger.Exchange | src/org/teammoose/util/Pinger.java:82-134 | on a connected socket, the handshake and the status request always go out first; the exchange succeeds exactly when the status reply and the pong's header are accepted, and then it has sent handshake + status request + ping |
| Pinger.Ping | src/org/teammoose/util/Pinger.java:66-145 | nothing is sent exactly when the hostname is null or the port is outside 0 to 65535; otherwise the handshake and the status request go out first. The call succeeds exactly when the status reply and the pong's header are accepted, and then it has sent handshake + status request + ping and stopped within the reply |
| Pinger.ReadHeader | src/org/teammoose/util/Pinger.java:107-112 | a header read ends after its start and within the reply, and it fails only with EOFException, "VarInt too big", "prematurely ended" or "invalid packet" |
| Pinger.ReadStatus | src/org/teammoose/util/Pinger.java:107-119 | an accepted status reply yields a non-empty payload that is exactly the bytes just before where reading stopped; it fails only with EOFException, "VarInt too big", NegativeArraySizeException, "prematurely ended", "invalid packet" or "unexpected value" |
| Pinger.WriteHandshakePayload | src/org/teammoose/util/Pinger.java:84-95 | the five writes into the scratch buffer leave exactly `HandshakePayload` in it |
| Pinger.WriteHandshake | src/org/teammoose/util/Pinger.java:84-98 | building the body in a scratch buffer and then writing its length and contents appends exactly `HandshakeFrame` to the output |
| Pinger.ReadReplyHeader | src/org/teammoose/util/Pinger.java:107-112 | reading the size and id from the stream and checking the id gives `ReadHeader`, and leaves the stream right after the id |
| Pinger.ReadStatusReply | src/org/teammoose/util/Pinger.java:107-119 | reading the status reply from the stream gives `ReadStatus`, and leaves the stream right after the payload |
| Pinger.WriteStatusRequest | src/org/teammoose/util/Pinger.java:102-103 | the status request appends exactly 01 00 |
| Pinger.WritePing | src/org/teammoose/util/Pinger.java:124-126 | the ping appends exactly `PingPacket(timestamp)` |
| Pinger.RunExchange | src/org/teammoose/util/Pinger.java:82-134 | on a connected socket, the writes and reads step by step send exactly what `Exchange` sends and return or throw what it does; on success the input stream stops right after the pong's id |
| Pinger.GetPing | src/org/teammoose/util/Pinger.java:66-145 | `getPing(options)` checks the hostname, then the port, then runs the exchange: it writes exactly what `Ping` says and returns or throws what `Ping` says. On success the input stream stops right after the pong's id |
| Pinger.GetPingByHostname | src/org/teammoose/util/Pinger.java:53-56 | `getPing(hostname)` is `getPing` with a fresh PingOptions carrying that hostname and the default port |
| Pinger.HandshakeLayout | src/org/teammoose/util/Pinger.java:84-98 | the frame is VarInt(n) then exactly n bytes: 0x00, VarInt(4), VarInt(hostname length), the hostname, the port's two bytes, VarInt(1) |
| Pinger.HandshakeParses | src/org/teammoose/util/Pinger.java:84-98 | a frame laid out like that is parsed back into exactly its fields |
| Pinger.HandshakeRoundTrip | src/org/teammoose/util/Pinger.java:84-98 | a server parsing the frame gets protocol version 4, the hostname, the port's low 16 bits and next state 1, with the length prefix covering the body exactly |
| Pinger.PingCarriesTimestamp | src/org/teammoose/util/Pinger.java:124-126 | the ping is 10 bytes: size 9 (the bytes after it), id 0x01, then the timestamp's 64-bit pattern big-endian |
| Pinger.PacketVectors | src/org/teammoose/util/Pinger.java:84-126 | the handshake for "a" on port 25565 is 07 00 04 01 61 63 DD 01; the status request is 01 00; the ping at timestamp 1 is 09 01 00 00 00 00 00 00 00 01 |
| Pinger.HeaderChecks | src/org/teammoose/util/Pinger.java:107-112 | after the size and id are read, the size is ignored, -1 is refused as premature first, then any id other than the expected one as invalid |
| Pinger.HeaderLocated | src/org/teammoose/util/Pinger.java:130-134 | the same checks, for a header whose two VarInts have been written out in the reply |
| Pinger.StatusChecks | src/org/teammoose/util/Pinger.java:114-119 | after the length is read: -1 is premature, 0 is unexpected, other negatives fail allocating the array, too few bytes is EOFException, otherwise exactly `length` bytes are taken |
| Pinger.StatusLocated | src/org/teammoose/util/Pinger.java:114-119 | the same cases, for a length whose VarInt has been written out in the reply |
| Pinger.SessionOf | src/org/teammoose/util/Pinger.java:102-134 | for a port in range, once the status reply and pong header pass, the session wrote handshake + status request + ping and returns the payload |
| Pinger.AcceptsLocatedReply | src/org/teammoose/util/Pinger.java:102-134 | for a port in range, any reply laid out as size, id 0, positive length, payload, size, id 1 is accepted: the three client packets are written, the payload is returned and reading stops after the pong's id |
| Pinger.WellFormedReplyLayout | src/org/teammoose/util/Pinger.java:107-134 | the reply built from any sizes, any payload of allowed length and any echo is laid out that way |
| Pinger.EchoNeverRead | src/org/teammoose/util/Pinger.java:128-134 | replacing everything after the pong's id (the echoed timestamp included) with any bytes does not change the session |
| Pinger.PortRejected | src/org/teammoose/util/Pinger.java:74-76 | with a hostname, the call throws the IllegalArgumentException of `new InetSocketAddress` exactly when the port is outside 0 to 65535, and then nothing has been written |
| Pinger.NullHostnameRejected | src/org/teammoose/util/Pinger.java:69-70 | a null hostname throws "Hostname cannot be null." before anything is written |
| Pinger.StatusRejected | src/org/teammoose/util/Pinger.java:107-126 | for a port in range, when the status reply is refused, only the handshake and status request have been written, and the ping is not sent |
| Pinger.PongRejected | src/org/teammoose/util/Pinger.java:124-134 | for a port in range, when the pong header is refused, the ping has already been written and the pong's failure is thrown |
| Pinger.HeaderPremature | src/org/teammoose/util/Pinger.java:107-110 | a header fails as "prematurely ended" exactly when its size and id were both read and the id is -1 |
| Pinger.StatusPremature | src/org/teammoose/util/Pinger.java:114-115 | the status reply fails as "prematurely ended" exactly when its header did, or its length was read and is -1 |
| Pinger.HeaderRejectionVectors | src/org/teammoose/util/Pinger.java:107-112 | an empty reply is EOFException, id FF FF FF FF 0F is premature, id 05 is invalid, a six-byte size is "VarInt too big" |
| Pinger.LengthRejectionVectors | src/org/teammoose/util/Pinger.java:116-119 | a length of 0 is unexpected, and a length of 3 with 2 bytes left is EOFException |
| Pinger.MinusOneLengthVector | src/org/teammoose/util/Pinger.java:115 | a length of FF FF FF FF 0F is premature |
| Pinger.NegativeLengthVector | src/org/teammoose/util/Pinger.java:118 | a length of 80 80 80 80 08 (-2147483648) fails allocating the array |
| Pinger.ExampleReplyParts | src/org/teammoose/util/Pinger.java:107-134 | in a concrete reply, the status yields `{` and the pong header is accepted right after its id |
| Pinger.SessionVector | src/org/teammoose/util/Pinger.java:82-134 | one whole session byte for byte: the 20 bytes written for "a" on 25565 at timestamp 1, and `{` returned |

## Left out

- Sockets: creating the socket and connecting with a timeout are not modelled. The server's reply is a byte sequence given up front, and the client's writes are the bytes it sends. The timeout is stored in `PingOptions` but nothing reads it.
- Gson: decoding the JSON into a `PingReply`, and the `PingReply`, `Players`, `Player` and `Version` classes, are not modelled. The model returns the payload bytes.
- Charset decoding: `new String(data, charset)` is left out. Its `UnsupportedEncodingException` would be thrown after the status reply is read and before the ping is written; the model treats every charset as supported.
- `System.currentTimeMillis()`: the timestamp is a parameter.
- The `close()` calls are left out. They release resources and write nothing.
- The port null-check is left out. It validates an autoboxed `int` and can never fire.
- Hostname characters: the hostname is the byte sequence `writeBytes` sends (the low byte of each char). Its length in bytes is its length in chars.
- Options.PingOptions.SetHostname: hostnames longer than 0x7FFF_FFF0 bytes are outside the model. The handshake buffer must stay below 2^31 bytes, where Java would run out of array space.
- Pinger.ReadStatus: an `OutOfMemoryError` from `new byte[length]` for a huge positive length is not modelled. The model reads the bytes if they are there and throws EOFException otherwise.
- PingUtil.ReadVarInt: where the stream stands after an exception is not stated. Every exception ends `getPing`.
- PingUtil.DecodeFrom: the bits a sixth byte would OR into the result before "VarInt too big" is thrown are not computed. The result is discarded.
- Pinger.GetPing: it starts on a fresh input stream (position 0), as on a newly connected socket.
- The getters of `PingOptions` are plain field reads of the class.
- The `PingUtil` constants (lines 329-332) are `public static` fields without `final`, so other code could change them. The model fixes them at their initial values.
- Options.PingOptions.SetCharset: a `null` charset cannot be expressed, as the charset is a string. Java accepts `setCharset(null)` and then throws a NullPointerException in `new String(data, charset)` (line 120), after the status reply is read and before the ping is written.
- A negative timeout makes `connect` throw an IllegalArgumentException (lines 74-76). It is left out with the socket.
- Pinger.Ping: the IllegalArgumentException for a port out of range carries the port, not the message text Java builds.
