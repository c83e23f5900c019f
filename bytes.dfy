/** Fixed-width integers and the byte-assembly expressions every reader of the
    roster format uses: a big-endian 16-bit value and a little-endian 32-bit value,
    each built from single bytes with shifts and bitwise ORs. */
module Bytes {

  /** A byte as read by `fread` into a `uint8_t`. */
  newtype byte = x: int | 0 <= x < 0x100

  /** C `uint16_t`. */
  newtype u16 = x: int | 0 <= x < 0x1_0000

  /** C `uint32_t`. */
  newtype u32 = x: int | 0 <= x < 0x1_0000_0000

  /** C `int` on a 32-bit two's-complement host. */
  newtype i32 = x: int | -0x8000_0000 <= x < 0x8000_0000

  /** The `int` a 32-bit total holds when its mathematical value is `x`: `int += uint32_t`
      adds in unsigned arithmetic modulo 2^32, and the conversion back to `int` keeps the
      residue in two's complement (implementation-defined by section 6.3.1.3 of ISO C11;
      GCC and Clang define it this way). */
  function ToInt32(x: int): (r: i32)
    ensures (r as int - x) % 0x1_0000_0000 == 0
    ensures 0 <= x < 0x8000_0000 ==> r as int == x
    ensures 0x8000_0000 <= x < 0x1_0000_0000 ==> r as int == x - 0x1_0000_0000
  {
    var m := x % 0x1_0000_0000;
    if m < 0x8000_0000 then m as i32 else (m - 0x1_0000_0000) as i32
  }

  /** Adding to a wrapped total wraps the exact sum: keeping `total_age` as an `int` after
      every `+=` gives the 32-bit residue of the exact total. */
  lemma ToInt32Add(x: int, y: int)
    ensures ToInt32(ToInt32(x) as int + y) == ToInt32(x + y)
  {
    var q := x / 0x1_0000_0000;
    assert x == q * 0x1_0000_0000 + x % 0x1_0000_0000;
    assert (ToInt32(x) as int + y) % 0x1_0000_0000 == (x + y) % 0x1_0000_0000;
  }

  /** Byte order of the host, which decides what a native `fread` of a `uint32_t` yields. */
  datatype Endianness = LittleEndian | BigEndian

  /** `(b0 << 8) | b1`: the first byte is the most significant one. The shifted operands
      do not overlap, so the OR is a sum (`BE16ByShifts`). */
  function BE16(b0: byte, b1: byte): (r: u16)
  {
    (b0 as int * 0x100 + b1 as int) as u16
  }

  /** `b0 | b1 << 8 | b2 << 16 | b3 << 24`: the first byte is the least significant one
      (`LE32ByShifts`). */
  function LE32(b0: byte, b1: byte, b2: byte, b3: byte): (r: u32)
  {
    (b0 as int + b1 as int * 0x100 + b2 as int * 0x1_0000 + b3 as int * 0x100_0000) as u32
  }

  /** The same four bytes read most-significant first, as a big-endian host's native
      `fread` of a `uint32_t` assembles them. */
  function BE32(b0: byte, b1: byte, b2: byte, b3: byte): (r: u32)
    ensures r == LE32(b3, b2, b1, b0)
  {
    (b0 as int * 0x100_0000 + b1 as int * 0x1_0000 + b2 as int * 0x100 + b3 as int) as u32
  }

  /** The value a native 32-bit `fread` produces on a host of the given byte order. */
  function Native32(host: Endianness, b0: byte, b1: byte, b2: byte, b3: byte): (r: u32)
    ensures host == LittleEndian ==> r == LE32(b0, b1, b2, b3)
    ensures host == BigEndian ==> r == LE32(b3, b2, b1, b0)
  {
    match host
    case LittleEndian => LE32(b0, b1, b2, b3)
    case BigEndian => BE32(b0, b1, b2, b3)
  }

  /** The shift-and-OR expression of `read_big_endian_16` computes `BE16`. */
  lemma BE16ByShifts(b0: bv8, b1: bv8)
    ensures (((b0 as bv16) << 8) | (b1 as bv16)) as int == b0 as int * 0x100 + b1 as int
  {
  }

  /** The shift-and-OR expression of `read_little_endian_32` computes `LE32`. */
  lemma LE32ByShifts(b0: bv8, b1: bv8, b2: bv8, b3: bv8)
    ensures ((b0 as bv32) | ((b1 as bv32) << 8) | ((b2 as bv32) << 16) | ((b3 as bv32) << 24)) as int
      == b0 as int + b1 as int * 0x100 + b2 as int * 0x1_0000 + b3 as int * 0x100_0000
  {
  }

  /** `BE16` puts its first byte in the high half and its second in the low half. */
  lemma BE16Bytes(b0: byte, b1: byte)
    ensures BE16(b0, b1) as int / 0x100 == b0 as int && BE16(b0, b1) as int % 0x100 == b1 as int
  {
    SplitLowByte(b1 as int, b0 as int);
  }

  /** `LE32` puts its bytes in the value least significant first: the digits of the value
      in base 256 are the four bytes in order. */
  lemma LE32Bytes(b0: byte, b1: byte, b2: byte, b3: byte)
    ensures var x := LE32(b0, b1, b2, b3) as int;
      && x % 0x100 == b0 as int && x / 0x100 % 0x100 == b1 as int
      && x / 0x100 / 0x100 % 0x100 == b2 as int && x / 0x100 / 0x100 / 0x100 == b3 as int
  {
    Digits(LE32(b0, b1, b2, b3) as int, b0 as int, b1 as int, b2 as int, b3 as int);
  }

  /** The four bytes of `v`, least significant first: the layout `LE32` reads back. */
  function EncodeLE32(v: u32): (bs: seq<byte>)
    ensures |bs| == 4
    ensures LE32(bs[0], bs[1], bs[2], bs[3]) == v
  {
    var x := v as int;
    DivMod256(x);
    DivMod256(x / 0x100);
    DivMod256(x / 0x100 / 0x100);
    [(x % 0x100) as byte, (x / 0x100 % 0x100) as byte,
     (x / 0x100 / 0x100 % 0x100) as byte, (x / 0x100 / 0x100 / 0x100) as byte]
  }

  /** The two bytes of `v`, most significant first: the layout `BE16` reads back. */
  function EncodeBE16(v: u16): (bs: seq<byte>)
    ensures |bs| == 2
    ensures BE16(bs[0], bs[1]) == v
  {
    DivMod256(v as int);
    [(v as int / 0x100) as byte, (v as int % 0x100) as byte]
  }

  /** Splitting off the low byte of a non-negative integer. */
  lemma DivMod256(x: int)
    requires x >= 0
    ensures x == x / 0x100 * 0x100 + x % 0x100
    ensures 0 <= x % 0x100 < 0x100 && 0 <= x / 0x100 <= x
    ensures x < 0x1_0000_0000 ==> x / 0x100 < 0x100_0000
    ensures x < 0x100_0000 ==> x / 0x100 < 0x1_0000
    ensures x < 0x1_0000 ==> x / 0x100 < 0x100
  {
  }

  /** `EncodeLE32` is the only encoding of a 32-bit value: two byte groups that
      assemble to the same value are the same bytes. */
  lemma LE32Injective(b0: byte, b1: byte, b2: byte, b3: byte)
    ensures EncodeLE32(LE32(b0, b1, b2, b3)) == [b0, b1, b2, b3]
  {
    var x := LE32(b0, b1, b2, b3) as int;
    Digits(x, b0 as int, b1 as int, b2 as int, b3 as int);
  }

  /** Peeling the digits of a base-256 number off one at a time. */
  lemma Digits(x: int, d0: int, d1: int, d2: int, d3: int)
    requires 0 <= d0 < 0x100 && 0 <= d1 < 0x100 && 0 <= d2 < 0x100 && 0 <= d3 < 0x100
    requires x == d0 + 0x100 * (d1 + 0x100 * (d2 + 0x100 * d3))
    ensures x % 0x100 == d0 && x / 0x100 % 0x100 == d1
    ensures x / 0x100 / 0x100 % 0x100 == d2 && x / 0x100 / 0x100 / 0x100 == d3
  {
    var q2 := d2 + 0x100 * d3;
    var q1 := d1 + 0x100 * q2;
    SplitLowByte(d0, q1);
    SplitLowByte(d1, q2);
    SplitLowByte(d2, d3);
  }

  lemma SplitLowByte(lo: int, hi: int)
    requires 0 <= lo < 0x100 && 0 <= hi
    ensures (lo + 0x100 * hi) % 0x100 == lo && (lo + 0x100 * hi) / 0x100 == hi
  {
  }

  /** `EncodeBE16` is the only encoding of a 16-bit value. */
  lemma BE16Injective(b0: byte, b1: byte)
    ensures EncodeBE16(BE16(b0, b1)) == [b0, b1]
  {
  }
}
