/** Bytes, fixed-width integers and the byte swapping done by the TXF loader.
    The target host (WebAssembly) is little-endian, so a value held in memory
    is read least-significant byte first. */
module ByteOrder {

  type byte = x: int | 0 <= x < 256
  type int8 = x: int | -0x80 <= x < 0x80
  type uint16 = x: int | 0 <= x < 0x1_0000
  type int16 = x: int | -0x8000 <= x < 0x8000
  type uint32 = x: int | 0 <= x < 0x1_0000_0000
  type int32 = x: int | -0x8000_0000 <= x < 0x8000_0000

  /** The unsigned value of two bytes held in little-endian order. */
  function LE16(b: seq<byte>): uint16
    requires |b| == 2
  {
    b[0] as int + 0x100 * b[1] as int
  }

  /** The unsigned value of four bytes held in little-endian order. */
  function LE32(b: seq<byte>): uint32
    requires |b| == 4
  {
    b[0] as int + 0x100 * b[1] as int + 0x1_0000 * b[2] as int + 0x100_0000 * b[3] as int
  }

  /** The two bytes that hold `v` in memory (little-endian). */
  function Bytes16(v: uint16): (b: seq<byte>)
    ensures |b| == 2 && LE16(b) == v
  {
    [v % 0x100, v / 0x100]
  }

  /** The four bytes that hold `v` in memory (little-endian). */
  function Bytes32(v: uint32): (b: seq<byte>)
    ensures |b| == 4 && LE32(b) == v
  {
    var b0, q0 := v % 0x100, v / 0x100;
    var b1, q1 := q0 % 0x100, q0 / 0x100;
    var b2, b3 := q1 % 0x100, q1 / 0x100;
    assert v == b0 + 0x100 * (b1 + 0x100 * (b2 + 0x100 * b3));
    [b0, b1, b2, b3]
  }

  lemma Bytes16OfLE16(b: seq<byte>)
    requires |b| == 2
    ensures Bytes16(LE16(b)) == b
  {
  }

  lemma Bytes32OfLE32(b: seq<byte>)
    requires |b| == 4
    ensures Bytes32(LE32(b)) == b
  {
    var v := LE32(b);
    assert v % 0x100 == b[0];
    var q0 := b[1] as int + 0x100 * (b[2] as int + 0x100 * b[3] as int);
    assert v == b[0] as int + 0x100 * q0;
    assert v / 0x100 == q0;
    var q1 := b[2] as int + 0x100 * b[3] as int;
    assert q0 / 0x100 == q1;
  }

  /** Two's complement reinterpretation of an unsigned char as a signed char. */
  function Int8Of(b: byte): int8
  {
    if b < 0x80 then b else b - 0x100
  }

  function Int16Of(u: uint16): int16
  {
    if u < 0x8000 then u else u - 0x1_0000
  }

  function Int32Of(u: uint32): int32
  {
    if u < 0x8000_0000 then u else u - 0x1_0000_0000
  }

  /** The bit pattern of a signed value, as an unsigned value of the same width. */
  function ByteOfInt8(v: int8): (b: byte)
    ensures Int8Of(b) == v
  {
    if v >= 0 then v else v + 0x100
  }

  function Uint16OfInt16(v: int16): (u: uint16)
    ensures Int16Of(u) == v
  {
    if v >= 0 then v else v + 0x1_0000
  }

  function Uint32OfInt32(v: int32): (u: uint32)
    ensures Int32Of(u) == v
  {
    if v >= 0 then v else v + 0x1_0000_0000
  }

  /** The four bytes of a 32-bit value, reversed in place. */
  function Swap4(b: seq<byte>): (r: seq<byte>)
    requires |b| == 4
    ensures |r| == 4
  {
    [b[3], b[2], b[1], b[0]]
  }

  /** The two bytes of a 16-bit value, exchanged. */
  function Swap2(b: seq<byte>): (r: seq<byte>)
    requires |b| == 2
    ensures |r| == 2
  {
    [b[1], b[0]]
  }

  function Swap4If(swap: bool, b: seq<byte>): (r: seq<byte>)
    requires |b| == 4
    ensures |r| == 4
  {
    if swap then Swap4(b) else b
  }

  function Swap2If(swap: bool, b: seq<byte>): (r: seq<byte>)
    requires |b| == 2
    ensures |r| == 2
  {
    if swap then Swap2(b) else b
  }

  /** The value an `int` holds after its four bytes have been reversed in memory. */
  function ByteSwap32(v: int32): int32
  {
    Int32Of(LE32(Swap4(Bytes32(Uint32OfInt32(v)))))
  }

  /** The value a `short` holds after its two bytes have been exchanged in memory. */
  function ByteSwap16(v: int16): int16
  {
    Int16Of(LE16(Swap2(Bytes16(Uint16OfInt16(v)))))
  }

  /** The value an `unsigned short` holds after its two bytes have been exchanged. */
  function ByteSwapU16(v: uint16): uint16
  {
    LE16(Swap2(Bytes16(v)))
  }

  /** Swapping the bytes of a 32-bit value twice gives the value back. */
  lemma ByteSwap32Involutive(v: int32)
    ensures ByteSwap32(ByteSwap32(v)) == v
  {
    var b := Bytes32(Uint32OfInt32(v));
    var w := ByteSwap32(v);
    assert Uint32OfInt32(w) == LE32(Swap4(b));
    Bytes32OfLE32(Swap4(b));
    assert Swap4(Swap4(b)) == b;
    Bytes32OfLE32(b);
  }

  /** The endianness marker written on the other byte order reads as its byte swap. */
  lemma ByteSwap32Marker()
    ensures ByteSwap32(0x12345678) == 0x78563412
    ensures ByteSwap32(0x78563412) == 0x12345678
  {
    assert Bytes32(0x12345678) == [0x78, 0x56, 0x34, 0x12];
    assert Bytes32(0x78563412) == [0x12, 0x34, 0x56, 0x78];
  }

  lemma ByteSwap16Involutive(v: int16)
    ensures ByteSwap16(ByteSwap16(v)) == v
  {
    var b := Bytes16(Uint16OfInt16(v));
    Bytes16OfLE16(Swap2(b));
    assert Swap2(Swap2(b)) == b;
    Bytes16OfLE16(b);
  }

  lemma ByteSwapU16Involutive(v: uint16)
    ensures ByteSwapU16(ByteSwapU16(v)) == v
  {
    var b := Bytes16(v);
    Bytes16OfLE16(Swap2(b));
    assert Swap2(Swap2(b)) == b;
    Bytes16OfLE16(b);
  }

  /** Reading four bytes and then swapping them in memory gives the byte swap of
      the value read without swapping. */
  lemma SwappedRead32(b: seq<byte>)
    requires |b| == 4
    ensures Int32Of(LE32(Swap4(b))) == ByteSwap32(Int32Of(LE32(b)))
  {
    Bytes32OfLE32(b);
  }

  lemma SwappedRead16(b: seq<byte>)
    requires |b| == 2
    ensures LE16(Swap2(b)) == ByteSwapU16(LE16(b))
    ensures Int16Of(LE16(Swap2(b))) == ByteSwap16(Int16Of(LE16(b)))
  {
    Bytes16OfLE16(b);
  }

  /** byteSwap32Bit (and the SWAPL macro): reverses, in place, the four bytes of
      the 32-bit value stored at `buf[at..at+4]`. */
  method ByteSwap32Bit(buf: array<byte>, at: nat)
    requires at + 4 <= buf.Length
    modifies buf
    ensures buf[at..at + 4] == Swap4(old(buf[at..at + 4]))
    ensures forall k :: 0 <= k < buf.Length && !(at <= k < at + 4) ==> buf[k] == old(buf[k])
  {
    var temp := buf[at];
    buf[at] := buf[at + 3];
    buf[at + 3] := temp;
    temp := buf[at + 1];
    buf[at + 1] := buf[at + 2];
    buf[at + 2] := temp;
  }

  /** byteSwap16Bit (and the SWAPS macro): exchanges, in place, the two bytes of
      the 16-bit value stored at `buf[at..at+2]`. */
  method ByteSwap16Bit(buf: array<byte>, at: nat)
    requires at + 2 <= buf.Length
    modifies buf
    ensures buf[at..at + 2] == Swap2(old(buf[at..at + 2]))
    ensures buf[at] == old(buf[at + 1]) && buf[at + 1] == old(buf[at])
    ensures forall k :: 0 <= k < buf.Length && !(at <= k < at + 2) ==> buf[k] == old(buf[k])
  {
    var temp := buf[at];
    buf[at] := buf[at + 1];
    buf[at + 1] := temp;
  }
}
