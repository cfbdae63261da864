/** Java values and the byte streams the ping client reads from and writes to.
    A `DataInputStream` is a byte sequence with a cursor; a `DataOutputStream` is the
    sequence of bytes written to it so far. Bytes are unsigned octets (`uint8`); Java's `int`
    and `long` are `int32` and `int64`, and the 32-bit two's complement pattern of an `int` is
    a natural below `Two32`. Dafny's `%` is Euclidean, so `x % Two32` is that pattern for a
    negative `x` too. */
module Streams {

  /** Java's 32-bit signed `int`. */
  newtype int32 = x: int | -0x8000_0000 <= x < 0x8000_0000

  /** Java's 64-bit signed `long`. */
  newtype int64 = x: int | -0x8000_0000_0000_0000 <= x < 0x8000_0000_0000_0000

  /** An octet on the wire. */
  newtype uint8 = x: int | 0 <= x < 0x100

  const Two32: nat := 0x1_0000_0000

  /** The 32-bit pattern of a Java `int`, read as an unsigned number. */
  function Unsigned(x: int32): (u: nat)
    ensures u < Two32
    ensures u < 0x8000_0000 <==> x >= 0
  {
    x as int % Two32
  }

  /** The Java `int` whose 32-bit pattern is `u`. */
  function Signed(u: nat): (x: int32)
    requires u < Two32
    ensures x < 0 <==> u >= 0x8000_0000
  {
    if u < 0x8000_0000 then u as int32 else (u - Two32) as int32
  }

  /** Pattern and value are two views of one 32-bit word. */
  lemma SignedUnsigned(x: int32, u: nat)
    requires u < Two32
    ensures Signed(u) == x <==> Unsigned(x) == u
  {
  }

  /** A reference that may be null. */
  datatype Option<+T> = None | Some(value: T)

  /** The exceptions that can end a ping exchange. */
  datatype Failure =
    | EndOfStream                 // EOFException: readByte or readFully ran out of input
    | VarIntTooBig                // RuntimeException("VarInt too big") from readVarInt
    | NegativeArraySize           // NegativeArraySizeException from `new byte[length]`
    | PortOutOfRange(port: int32) // IllegalArgumentException from `new InetSocketAddress`
    | Protocol(message: string)   // IOException thrown by PingUtil.io
    | Validation(message: string) // RuntimeException thrown by PingUtil.validate

  /** A value, or the exception thrown instead of producing it. */
  datatype Result<+T> = Ok(value: T) | Err(failure: Failure) {
    predicate IsFailure() {
      Err?
    }

    function PropagateFailure<U>(): Result<U>
      requires Err?
    {
      Err(failure)
    }

    function Extract(): T
      requires Ok?
    {
      value
    }
  }

  /** A value read from a sequence of bytes, and the position just after it. */
  datatype Read<+T> = Read(value: T, next: nat)

  /** The number a sequence of bytes denotes, most significant byte first. */
  function BigEndian(b: seq<uint8>): nat
  {
    if b == [] then 0 else BigEndian(b[..|b| - 1]) * 0x100 + b[|b| - 1] as int
  }

  /** The two bytes `DataOutputStream.writeShort` writes: bits 8..15 of `v`, then bits 0..7. */
  function ShortBytes(v: int32): (r: seq<uint8>)
    ensures |r| == 2
    ensures BigEndian(r) == v as int % 0x1_0000
  {
    var low16 := v as int % 0x1_0000;
    var r := [(low16 / 0x100) as uint8, (low16 % 0x100) as uint8];
    assert BigEndian(r[..1]) == r[0] as int by { assert r[..1][..0] == []; }
    r
  }

  /** The four bytes of a 32-bit pattern, most significant first. */
  function WordBytes(u: nat): (r: seq<uint8>)
    requires u < Two32
    ensures |r| == 4
    ensures BigEndian(r) == u
  {
    var b0, r0 := u / 0x100_0000, u % 0x100_0000;
    var b1, r1 := r0 / 0x1_0000, r0 % 0x1_0000;
    var b2, b3 := r1 / 0x100, r1 % 0x100;
    var r := [b0 as uint8, b1 as uint8, b2 as uint8, b3 as uint8];
    assert BigEndian(r[..1]) == b0 by { assert r[..1][..0] == []; }
    assert BigEndian(r[..2]) == b0 * 0x100 + b1 by { assert r[..2][..1] == r[..1]; }
    assert BigEndian(r[..3]) == (b0 * 0x100 + b1) * 0x100 + b2 by { assert r[..3][..2] == r[..2]; }
    r
  }

  /** The eight bytes `DataOutputStream.writeLong` writes: the 64-bit pattern of `v`, most
      significant byte first. */
  function LongBytes(v: int64): (r: seq<uint8>)
    ensures |r| == 8
    ensures BigEndian(r[..4]) * Two32 + BigEndian(r[4..]) == v as int % 0x1_0000_0000_0000_0000
  {
    var u := v as int % 0x1_0000_0000_0000_0000;
    var hi, lo := WordBytes(u / Two32), WordBytes(u % Two32);
    assert (hi + lo)[..4] == hi && (hi + lo)[4..] == lo;
    hi + lo
  }

  /** Where each of seven consecutive pieces sits in their concatenation. */
  lemma Pieces(a: seq<uint8>, b: seq<uint8>, c: seq<uint8>, d: seq<uint8>, e: seq<uint8>,
               f: seq<uint8>, g: seq<uint8>)
    ensures var s := a + b + c + d + e + f + g;
      var i1 := |a|; var i2 := i1 + |b|; var i3 := i2 + |c|; var i4 := i3 + |d|;
      var i5 := i4 + |e|; var i6 := i5 + |f|;
      && |s| == i6 + |g|
      && s[..i1] == a && s[i1..i2] == b && s[i2..i3] == c && s[i3..i4] == d
      && s[i4..i5] == e && s[i5..i6] == f && s[i6..] == g
      && a + (b + c + d + e + f + g) == s
  {
  }

  /** Streams that agree on their first `n` bytes agree on their first `m <= n`. */
  lemma SharedPrefix(s: seq<uint8>, t: seq<uint8>, m: nat, n: nat)
    requires m <= n <= |s| && n <= |t| && s[..n] == t[..n]
    ensures s[..m] == t[..m]
  {
    assert s[..m] == s[..n][..m] && t[..m] == t[..n][..m];
  }

  /** The input side of the socket, as `DataInputStream` presents it: the bytes the server
      sends and how many of them have been consumed. */
  class InputStream {
    const data: seq<uint8>
    var pos: nat

    predicate Valid()
      reads this
    {
      pos <= |data|
    }

    constructor (data: seq<uint8>)
      ensures this.data == data && pos == 0
      ensures Valid()
    {
      this.data := data;
      pos := 0;
    }

    /** `readByte`: the next byte, or EOFException once every byte has been consumed. */
    method ReadByte() returns (r: Result<uint8>)
      requires Valid()
      modifies this
      ensures Valid()
      ensures old(pos) < |data| ==> r == Ok(data[old(pos)]) && pos == old(pos) + 1
      ensures old(pos) == |data| ==> r == Err(EndOfStream) && pos == old(pos)
    {
      if pos == |data| {
        return Err(EndOfStream);
      }
      r := Ok(data[pos]);
      pos := pos + 1;
    }

    /** `readFully` into an array of `n` bytes: exactly the next `n` bytes, or EOFException
        after consuming whatever was left. */
    method ReadFully(n: nat) returns (r: Result<seq<uint8>>)
      requires Valid()
      modifies this
      ensures Valid()
      ensures old(pos) + n <= |data| ==> r == Ok(data[old(pos)..old(pos) + n]) && pos == old(pos) + n
      ensures old(pos) + n > |data| ==> r == Err(EndOfStream) && pos == |data|
    {
      if |data| - pos < n {
        pos := |data|;
        return Err(EndOfStream);
      }
      r := Ok(data[pos..pos + n]);
      pos := pos + n;
    }
  }

  /** An output stream (`DataOutputStream` over the socket or over a `ByteArrayOutputStream`),
      seen as the bytes written to it so far. */
  class OutputStream {
    var written: seq<uint8>

    constructor ()
      ensures written == []
    {
      written := [];
    }

    /** `writeByte`. */
    method WriteByte(b: uint8)
      modifies this
      ensures written == old(written) + [b]
    {
      written := written + [b];
    }

    /** `write(byte[])` and `writeBytes`. */
    method Write(bytes: seq<uint8>)
      modifies this
      ensures written == old(written) + bytes
    {
      written := written + bytes;
    }

    /** `writeShort`: the low 16 bits of `v`, high byte first. */
    method WriteShort(v: int32)
      modifies this
      ensures written == old(written) + ShortBytes(v)
    {
      written := written + ShortBytes(v);
    }

    /** `writeLong`: the 64 bits of `v`, high byte first. */
    method WriteLong(v: int64)
      modifies this
      ensures written == old(written) + LongBytes(v)
    {
      written := written + LongBytes(v);
    }
  }
}
