/** PingUtil: the protocol constants, the two exception helpers and the VarInt codec.
    A VarInt carries the 32-bit pattern of a Java `int` in groups of 7 bits, least significant
    group first; bit 7 (0x80) of a byte says that another byte follows. The codec works on the
    pattern as a natural below `Two32`: the source's `x & 0x7F` is `x % 0x80`, `x >>> 7` is
    `x / 0x80`, and `(x & 0x80) == 128` on a byte is `x >= 0x80`. */
module PingUtil {
  import opened Streams

  const PacketHandshake: uint8 := 0x00
  const PacketStatusRequest: uint8 := 0x00
  const PacketPing: uint8 := 0x01
  const ProtocolVersion: int32 := 4
  const StatusHandshake: int32 := 1

  /** `validate`: a RuntimeException carrying `message` when the reference is null. */
  function Validate<T>(o: Option<T>, message: string): (r: Result<T>)
    ensures r.Ok? <==> o.Some?
    ensures r.Ok? ==> r.value == o.value
    ensures r.Err? ==> r.failure == Validation(message)
  {
    match o
    case Some(v) => Ok(v)
    case None => Err(Validation(message))
  }

  /** `io`: an IOException carrying `message` exactly when `condition` holds. */
  function Io(condition: bool, message: string): (r: Result<()>)
    ensures r.Err? <==> condition
    ensures r.Err? ==> r.failure == Protocol(message)
  {
    if condition then Err(Protocol(message)) else Ok(())
  }

  /** Whether a VarInt byte says that another byte follows. */
  predicate HasMore(b: uint8) {
    b >= 0x80
  }

  /** The number of bytes the encoding of the pattern `u` takes, read off its magnitude. */
  function Size(u: nat): nat
  {
    if u < 0x80 then 1
    else if u < 0x4000 then 2
    else if u < 0x20_0000 then 3
    else if u < 0x1000_0000 then 4
    else 5
  }

  /** The bytes `writeVarInt` writes for the 32-bit pattern `u`, one per turn of its loop:
      while bits above the low seven remain, their low group with the continuation bit set,
      then the last group alone. Every byte but the last announces a successor. */
  function EncodeBits(u: nat): (r: seq<uint8>)
    requires u < Two32
    ensures 1 <= |r|
    decreases u
  {
    if u < 0x80 then [u as uint8]
    else [(u % 0x80 + 0x80) as uint8] + EncodeBits(u / 0x80)
  }

  /** The encoding of `u` takes `Size(u)` bytes, at most five. */
  lemma {:induction false} EncodeLength(u: nat)
    requires u < Two32
    ensures |EncodeBits(u)| == Size(u) <= 5
    decreases u
  {
    if u >= 0x80 {
      EncodeLength(u / 0x80);
    }
  }

  /** Every byte `writeVarInt` writes but the last announces a successor, and the last does
      not: the encoding ends exactly where a reader stops. */
  lemma {:induction false} EncodeBitsShape(u: nat)
    requires u < Two32
    ensures forall i :: 0 <= i < |EncodeBits(u)| - 1 ==> HasMore(EncodeBits(u)[i])
    ensures !HasMore(EncodeBits(u)[|EncodeBits(u)| - 1])
    decreases u
  {
    if u >= 0x80 {
      EncodeBitsShape(u / 0x80);
    }
  }

  /** `writeVarInt(out, value)`: the bytes written for a Java `int`; a negative one is written
      as its 32-bit pattern, since the loop shifts it with `>>>`. */
  function Encode(value: int32): (r: seq<uint8>)
    ensures 1 <= |r| <= 5
  {
    EncodeLength(Unsigned(value));
    EncodeBits(Unsigned(value))
  }

  /** `1 << (7 * j)`: the weight of the `j`-th 7-bit group, counting from 0. */
  function Scale(j: nat): nat
    requires j <= 4
  {
    match j
    case 0 => 0x1
    case 1 => 0x80
    case 2 => 0x4000
    case 3 => 0x20_0000
    case 4 => 0x1000_0000
  }

  /** `acc | (k & 0x7F) << (7 * j)` in 32 bits, when the bits of `acc` all lie below group `j`:
      the OR is then a sum, and at `j == 4` the group's top three bits fall off bit 31. */
  function AddGroup(acc: nat, k: uint8, j: nat): (r: nat)
    requires j <= 4 && acc < Scale(j)
    ensures j < 4 ==> r < Scale(j + 1)
    ensures r < Two32
  {
    var group := k as int % 0x80;
    match j
    case 0 => acc + group
    case 1 => acc + group * 0x80
    case 2 => acc + group * 0x4000
    case 3 => acc + group * 0x20_0000
    case 4 => acc + group * 0x1000_0000 % Two32
  }

  /** `readVarInt` from position `pos`, with `acc` the pattern gathered so far and `j` the
      number of bytes consumed so far. A sixth byte is read and then rejected ("VarInt too
      big"); the bits it would add (shifted by 35 & 31 = 3) never reach the caller. */
  function DecodeFrom(s: seq<uint8>, pos: nat, acc: nat, j: nat): (r: Result<Read<nat>>)
    requires j <= 5 && acc < Two32 && (j <= 4 ==> acc < Scale(j))
    ensures r.Ok? ==> pos < r.value.next <= |s| && r.value.next <= pos + 5 - j && r.value.value < Two32
    ensures r.Err? ==> r.failure == EndOfStream || r.failure == VarIntTooBig
    decreases 5 - j
  {
    if pos >= |s| then Err(EndOfStream)
    else if j == 5 then Err(VarIntTooBig)
    else
      var acc' := AddGroup(acc, s[pos], j);
      if !HasMore(s[pos]) then Ok(Read(acc', pos + 1))
      else DecodeFrom(s, pos + 1, acc', j + 1)
  }

  /** `readVarInt` on a stream positioned at `pos`: the Java `int` read and the position after
      it, or EOFException, or "VarInt too big". */
  function Decode(s: seq<uint8>, pos: nat): (r: Result<Read<int32>>)
    ensures r.Ok? ==> pos < r.value.next <= |s| && r.value.next <= pos + 5
  {
    match DecodeFrom(s, pos, 0, 0)
    case Ok(read) => Ok(Read(Signed(read.value), read.next))
    case Err(f) => Err(f)
  }

  /** The first byte of a multi-byte encoding carries the low group and the continuation bit;
      the encoding of the remaining groups follows it. */
  lemma EncodeBitsStep(w: nat)
    requires 0x80 <= w < Two32
    ensures EncodeBits(w) == [(w % 0x80 + 0x80) as uint8] + EncodeBits(w / 0x80)
  {
  }

  /** Adding `w`'s low group at group `j`, then the rest of `w` one group higher, adds `w`. */
  lemma GroupSplit(acc: nat, w: nat, j: nat)
    requires j < 4 && acc < Scale(j) && 0x80 <= w && w * Scale(j) < Two32
    ensures AddGroup(acc, (w % 0x80 + 0x80) as uint8, j) == acc + w % 0x80 * Scale(j)
    ensures w / 0x80 * Scale(j + 1) < Two32
    ensures acc + w % 0x80 * Scale(j) + w / 0x80 * Scale(j + 1) == acc + w * Scale(j)
  {
  }

  /** One step of `DecodeFrom` over a byte that announces a successor. */
  lemma DecodeFromMore(s: seq<uint8>, pos: nat, acc: nat, j: nat)
    requires j < 5 && acc < Scale(j) && pos < |s| && HasMore(s[pos])
    ensures DecodeFrom(s, pos, acc, j) == DecodeFrom(s, pos + 1, AddGroup(acc, s[pos], j), j + 1)
  {
  }

  /** One step of `DecodeFrom` over a byte that ends the VarInt. */
  lemma DecodeFromLast(s: seq<uint8>, pos: nat, acc: nat, j: nat)
    requires j < 5 && acc < Scale(j) && pos < |s| && !HasMore(s[pos])
    ensures DecodeFrom(s, pos, acc, j) == Ok(Read(AddGroup(acc, s[pos], j), pos + 1))
  {
  }

  /** A last group `w` (below 0x80) at group `j` adds `w` times the group's weight. */
  lemma GroupLast(acc: nat, w: nat, j: nat)
    requires j <= 4 && acc < Scale(j) && w < 0x80 && w * Scale(j) < Two32
    ensures AddGroup(acc, w as uint8, j) == acc + w * Scale(j)
  {
  }

  /** Reading the bytes of `EncodeBits(w)` at group `j` adds `w`'s groups from group `j` on:
      the pattern read is `total`, and reading stops at `next`, just after those bytes. */
  lemma {:induction false} DecodeFromEncode(s: seq<uint8>, pos: nat, acc: nat, j: nat, w: nat, total: nat, next: nat)
    requires w < Two32 && j <= 4 && acc < Scale(j) && w * Scale(j) < Two32 && total == acc + w * Scale(j)
    requires j + |EncodeBits(w)| <= 5 && next == pos + |EncodeBits(w)|
    requires next <= |s| && s[pos..next] == EncodeBits(w)
    ensures DecodeFrom(s, pos, acc, j) == Ok(Read(total, next))
    decreases w
  {
    var e := EncodeBits(w);
    assert s[pos] == e[0];
    if w < 0x80 {
      DecodeFromLast(s, pos, acc, j);
      GroupLast(acc, w, j);
    } else {
      var rest := EncodeBits(w / 0x80);
      EncodeBitsStep(w);
      assert s[pos + 1..next] == s[pos..next][1..];
      GroupSplit(acc, w, j);
      DecodeFromMore(s, pos, acc, j);
      DecodeFromEncode(s, pos + 1, acc + w % 0x80 * Scale(j), j + 1, w / 0x80, total, next);
    }
  }

  /** Round trip: readVarInt, applied to the bytes writeVarInt wrote for any Java `int` `v`
      (negative ones included), returns `v` and consumes exactly those bytes, whatever
      follows them. */
  lemma RoundTrip(s: seq<uint8>, pos: nat, v: int32)
    requires pos + |Encode(v)| <= |s| && s[pos..pos + |Encode(v)|] == Encode(v)
    ensures Decode(s, pos) == Ok(Read(v, pos + |Encode(v)|))
  {
    EncodeLength(Unsigned(v));
    DecodeFromEncode(s, pos, 0, 0, Unsigned(v), Unsigned(v), pos + |Encode(v)|);
    SignedUnsigned(v, Unsigned(v));
  }

  /** The encoding of `v` sits in `s` at `pos`. */
  predicate VarIntAt(s: seq<uint8>, pos: nat, v: int32)
  {
    pos + |Encode(v)| <= |s| && s[pos..pos + |Encode(v)|] == Encode(v)
  }

  /** `RoundTrip` for an encoding located by `VarIntAt`, ending at `next`. It adds no new fact:
      naming the end position lets callers' goals match without unfolding `Encode`. */
  lemma DecodeAt(s: seq<uint8>, pos: nat, v: int32, next: nat)
    requires VarIntAt(s, pos, v) && next == pos + |Encode(v)|
    ensures Decode(s, pos) == Ok(Read(v, next))
  {
    RoundTrip(s, pos, v);
  }

  /** `DecodeFrom` looks at no byte past the end of what it reads: another stream that agrees
      up to there yields the same. */
  lemma {:induction false} DecodeFromPrefix(s: seq<uint8>, t: seq<uint8>, pos: nat, acc: nat, j: nat)
    requires j <= 5 && acc < Two32 && (j <= 4 ==> acc < Scale(j))
    requires DecodeFrom(s, pos, acc, j).Ok?
    requires var n := DecodeFrom(s, pos, acc, j).value.next; n <= |t| && s[..n] == t[..n]
    ensures DecodeFrom(t, pos, acc, j) == DecodeFrom(s, pos, acc, j)
    decreases 5 - j
  {
    var n := DecodeFrom(s, pos, acc, j).value.next;
    assert s[pos] == s[..n][pos] == t[..n][pos] == t[pos];
    if HasMore(s[pos]) {
      DecodeFromPrefix(s, t, pos + 1, AddGroup(acc, s[pos], j), j + 1);
    }
  }

  /** readVarInt reads nothing past the VarInt: the bytes after it never change the result. */
  lemma DecodePrefix(s: seq<uint8>, t: seq<uint8>, pos: nat)
    requires Decode(s, pos).Ok?
    requires var n := Decode(s, pos).value.next; n <= |t| && s[..n] == t[..n]
    ensures Decode(t, pos) == Decode(s, pos)
  {
    DecodeFromPrefix(s, t, pos, 0, 0);
  }

  /** The number of consecutive bytes from `pos` on that announce a successor. */
  function Run(s: seq<uint8>, pos: nat): (n: nat)
    ensures pos + n <= |s| || n == 0
    decreases |s| - pos
  {
    if pos < |s| && HasMore(s[pos]) then 1 + Run(s, pos + 1) else 0
  }

  /** How `DecodeFrom` ends, in terms of the run of continuation bytes at `pos`. */
  lemma {:induction false} DecodeFromOutcome(s: seq<uint8>, pos: nat, acc: nat, j: nat)
    requires j <= 5 && acc < Two32 && (j <= 4 ==> acc < Scale(j))
    ensures var r := DecodeFrom(s, pos, acc, j); var c := Run(s, pos);
      && (r.Ok? <==> c < 5 - j && pos + c < |s|)
      && (r.Ok? ==> r.value.next == pos + c + 1)
      && (r == Err(VarIntTooBig) <==> c >= 5 - j && pos + 5 - j < |s|)
      && (r == Err(EndOfStream) <==> pos + (if c < 5 - j then c else 5 - j) >= |s|)
    decreases 5 - j
  {
    if pos < |s| && j < 5 && HasMore(s[pos]) {
      DecodeFromOutcome(s, pos + 1, AddGroup(acc, s[pos], j), j + 1);
    }
  }

  /** readVarInt succeeds exactly when a byte without the continuation bit turns up among the
      first five, and then it consumes the bytes up to and including that one. */
  lemma DecodeOutcome(s: seq<uint8>, pos: nat)
    ensures var r := Decode(s, pos); var c := Run(s, pos);
      && (r.Ok? <==> c < 5 && pos + c < |s|)
      && (r.Ok? ==> r.value.next == pos + c + 1)
      && (r == Err(EndOfStream) <==> pos + (if c < 5 then c else 5) >= |s|)
  {
    DecodeFromOutcome(s, pos, 0, 0);
  }

  /** `Run` reaches `m` exactly when the `m` bytes from `pos` on all announce a successor. */
  lemma {:induction false} RunAtLeast(s: seq<uint8>, pos: nat, m: nat)
    requires pos <= |s|
    ensures Run(s, pos) >= m <==> pos + m <= |s| && forall i :: pos <= i < pos + m ==> HasMore(s[i])
    decreases m
  {
    if m > 0 {
      if pos < |s| && HasMore(s[pos]) {
        RunAtLeast(s, pos + 1, m - 1);
        if pos + m <= |s| && forall i :: pos + 1 <= i < pos + m ==> HasMore(s[i]) {
          assert forall i :: pos <= i < pos + m ==> HasMore(s[i]);
        }
      } else if pos < |s| {
        assert !HasMore(s[pos]);
      }
    }
  }

  /** "VarInt too big" is thrown exactly when the first five bytes all announce a successor
      and a sixth byte is there to be read (its own continuation bit is never looked at). */
  lemma TooBigExactly(s: seq<uint8>, pos: nat)
    ensures Decode(s, pos) == Err(VarIntTooBig) <==>
      pos + 6 <= |s| && forall i :: pos <= i < pos + 5 ==> HasMore(s[i])
  {
    DecodeFromOutcome(s, pos, 0, 0);
    if pos <= |s| {
      RunAtLeast(s, pos, 5);
    }
  }

  /** A continued group completes the all-ones pattern of groups 0 to `j` exactly when the
      groups before it are all ones and the byte is 0xFF. */
  lemma GroupAllOnes(acc: nat, b: uint8, j: nat)
    requires j < 4 && acc < Scale(j) && HasMore(b)
    ensures AddGroup(acc, b, j) == Scale(j + 1) - 1 <==> acc == Scale(j) - 1 && b == 0xFF
  {
  }

  /** The final group, at group 4, completes the all-ones pattern exactly when groups 0 to 3
      are all ones and the byte's low four bits are set. */
  lemma LastGroupAllOnes(acc: nat, b: uint8)
    requires acc < Scale(4)
    ensures AddGroup(acc, b, 4) == Two32 - 1 <==> acc == Scale(4) - 1 && b % 0x10 == 0xF
  {
  }

  /** The all-ones pattern needs five bytes: a VarInt that ends at group `j` below 4 is
      smaller. */
  lemma EarlyEndBelow(acc: nat, b: uint8, j: nat)
    requires j < 4 && acc < Scale(j) && !HasMore(b)
    ensures AddGroup(acc, b, j) < Two32 - 1
  {
  }

  /** From group `j` on, `DecodeFrom` yields the all-ones pattern exactly when every group so
      far is all ones, the bytes up to group 3 are 0xFF, and the byte at group 4 ends the
      VarInt with its low four bits set (its other three bits fall off bit 31). */
  lemma {:induction false} AllOnesFrom(s: seq<uint8>, pos: nat, acc: nat, j: nat)
    requires j <= 4 && acc < Scale(j)
    ensures var r := DecodeFrom(s, pos, acc, j);
      r.Ok? && r.value.value == Two32 - 1 <==>
        && acc == Scale(j) - 1
        && pos + 5 - j <= |s|
        && (forall i :: pos <= i < pos + 4 - j ==> s[i] == 0xFF)
        && s[pos + 4 - j] < 0x80 && s[pos + 4 - j] % 0x10 == 0xF
    decreases 4 - j
  {
    if pos < |s| {
      var b := s[pos];
      if j == 4 {
        LastGroupAllOnes(acc, b);
      } else if HasMore(b) {
        var acc' := AddGroup(acc, b, j);
        AllOnesFrom(s, pos + 1, acc', j + 1);
        GroupAllOnes(acc, b, j);
        if pos + 5 - j <= |s| {
          assert (forall i :: pos <= i < pos + 4 - j ==> s[i] == 0xFF) <==>
            b == 0xFF && forall i :: pos + 1 <= i < pos + 1 + 4 - (j + 1) ==> s[i] == 0xFF;
        }
      } else {
        DecodeFromLast(s, pos, acc, j);
        EarlyEndBelow(acc, b, j);
        assert b != 0xFF;
      }
    }
  }

  /** A VarInt reads as the Java `int` -1 exactly when it is FF FF FF FF followed by a final
      byte (below 0x80) whose low four bits are set: 0F, or one of 1F, 2F, ..., 7F, whose
      extra bits are lost. */
  lemma MinusOneExactly(s: seq<uint8>, pos: nat)
    ensures Decode(s, pos).Ok? && Decode(s, pos).value.value == -1 <==>
      && pos + 5 <= |s|
      && (forall i :: pos <= i < pos + 4 ==> s[i] == 0xFF)
      && s[pos + 4] < 0x80 && s[pos + 4] % 0x10 == 0xF
  {
    AllOnesFrom(s, pos, 0, 0);
    var r := DecodeFrom(s, pos, 0, 0);
    if r.Ok? {
      SignedUnsigned(-1, r.value.value);
    }
  }

  /** Known vectors: 0, 300 and 2147483647, and the -1 that an end-of-stream check can see. */
  lemma Vectors()
    ensures Encode(0) == [0x00]
    ensures Encode(300) == [0xAC, 0x02]
    ensures Encode(0x7FFF_FFFF) == [0xFF, 0xFF, 0xFF, 0xFF, 0x07]
    ensures Encode(-1) == [0xFF, 0xFF, 0xFF, 0xFF, 0x0F]
  {
    assert EncodeBits(0xFF_FFFF) == [0xFF, 0xFF, 0xFF, 0x07] by {
      assert EncodeBits(0x1FFFF) == [0xFF, 0xFF, 0x07] by {
        assert EncodeBits(0x3FF) == [0xFF, 0x07];
      }
    }
    assert EncodeBits(0x1FF_FFFF) == [0xFF, 0xFF, 0xFF, 0x0F] by {
      assert EncodeBits(0x3_FFFF) == [0xFF, 0xFF, 0x0F] by {
        assert EncodeBits(0x7FF) == [0xFF, 0x0F];
      }
    }
  }

  /** `writeVarInt`, on an output stream. */
  method WriteVarInt(out: OutputStream, value: int32)
    modifies out
    ensures out.written == old(out.written) + Encode(value)
  {
    var paramInt: nat := Unsigned(value);
    while true
      invariant paramInt < Two32
      invariant old(out.written) + Encode(value) == out.written + EncodeBits(paramInt)
      decreases paramInt
    {
      if paramInt < 0x80 {
        out.WriteByte(paramInt as uint8);
        return;
      }
      out.WriteByte((paramInt % 0x80 + 0x80) as uint8);
      paramInt := paramInt / 0x80;
    }
  }

  /** `readVarInt`, on an input stream: on success the stream has moved past the VarInt. */
  method ReadVarInt(input: InputStream) returns (r: Result<int32>)
    requires input.Valid()
    modifies input
    ensures input.Valid()
    ensures match Decode(input.data, old(input.pos))
      case Ok(read) => r == Ok(read.value) && input.pos == read.next
      case Err(f) => r == Err(f)
  {
    ghost var spec := DecodeFrom(input.data, input.pos, 0, 0);
    var i: nat := 0;
    var j: nat := 0;
    while true
      invariant input.Valid() && j <= 5 && i < Two32 && (j <= 4 ==> i < Scale(j))
      invariant spec == DecodeFrom(input.data, input.pos, i, j)
      decreases 5 - j
    {
      var k :- input.ReadByte();
      if j == 5 {
        return Err(VarIntTooBig);
      }
      i := AddGroup(i, k, j);
      j := j + 1;
      if !HasMore(k) {
        break;
      }
    }
    return Ok(Signed(i));
  }
}
