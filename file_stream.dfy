/** The byte source every program opens with `fopen(path, "rb")`: the file's bytes and
    a read position that each `fread` and `fseek(…, SEEK_CUR)` moves forward. The bytes
    never change; only the position does. */
module FileStreams {
  import opened Bytes

  class FileStream {
    /** The whole contents of the opened file. */
    const data: seq<byte>
    /** The file position indicator. */
    var pos: nat

    ghost predicate Valid()
      reads this
    {
      pos <= |data|
    }

    /** Bytes not yet consumed. */
    function Remaining(): (n: nat)
      reads this
      requires Valid()
      ensures pos + n == |data|
    {
      |data| - pos
    }

    /** Opening the file: the position starts at offset 0. */
    constructor Open(contents: seq<byte>)
      ensures Valid() && data == contents && pos == 0
    {
      data := contents;
      pos := 0;
    }

    /** `fread(&b, sizeof(uint8_t), 1, file)`. */
    method ReadByte() returns (b: byte)
      requires Valid() && Remaining() >= 1
      modifies this
      ensures Valid() && pos == old(pos) + 1
      ensures b == data[old(pos)]
    {
      b := data[pos];
      pos := pos + 1;
    }

    /** `fread(buf, sizeof(char), n, file)`: the next `n` bytes, copied verbatim. */
    method ReadBytes(n: nat) returns (buf: seq<byte>)
      requires Valid() && Remaining() >= n
      modifies this
      ensures Valid() && pos == old(pos) + n
      ensures buf == data[old(pos)..old(pos) + n]
    {
      buf := data[pos..pos + n];
      pos := pos + n;
    }

    /** `fseek(file, n, SEEK_CUR)` over bytes that are present. */
    method Skip(n: nat)
      requires Valid() && Remaining() >= n
      modifies this
      ensures Valid() && pos == old(pos) + n
    {
      pos := pos + n;
    }

    /** `read_big_endian_16` of task02.c, task03.c, Edwin_Rojas_Tarea2.c and
        edwin_rojas_tarea1.c: two single-byte reads, the first one the high byte. */
    method ReadBigEndian16() returns (v: u16)
      requires Valid() && Remaining() >= 2
      modifies this
      ensures Valid() && pos == old(pos) + 2
      ensures v as int == data[old(pos)] as int * 0x100 + data[old(pos) + 1] as int
      ensures v == BE16(data[old(pos)], data[old(pos) + 1])
    {
      var byte1 := ReadByte();
      var byte2 := ReadByte();
      v := BE16(byte1, byte2);
    }

    /** `read_big_endian_16` of tarea1.c: one two-byte read into an array. */
    method ReadBigEndian16Buffered() returns (v: u16)
      requires Valid() && Remaining() >= 2
      modifies this
      ensures Valid() && pos == old(pos) + 2
      ensures v as int == data[old(pos)] as int * 0x100 + data[old(pos) + 1] as int
      ensures v == BE16(data[old(pos)], data[old(pos) + 1])
    {
      var bytes := ReadBytes(2);
      v := BE16(bytes[0], bytes[1]);
    }

    /** `read_little_endian_32` of task02.c, task03.c and edwin_rojas_tarea1.c: four
        single-byte reads, the first one the low byte. */
    method ReadLittleEndian32() returns (v: u32)
      requires Valid() && Remaining() >= 4
      modifies this
      ensures Valid() && pos == old(pos) + 4
      ensures v as int == data[old(pos)] as int + data[old(pos) + 1] as int * 0x100
        + data[old(pos) + 2] as int * 0x1_0000 + data[old(pos) + 3] as int * 0x100_0000
      ensures v == LE32(data[old(pos)], data[old(pos) + 1], data[old(pos) + 2], data[old(pos) + 3])
    {
      var byte1 := ReadByte();
      var byte2 := ReadByte();
      var byte3 := ReadByte();
      var byte4 := ReadByte();
      v := LE32(byte1, byte2, byte3, byte4);
    }

    /** `read_little_endian_32` of Edwin_Rojas_Tarea2.c and tarea1.c: one four-byte read
        into an array. */
    method ReadLittleEndian32Buffered() returns (v: u32)
      requires Valid() && Remaining() >= 4
      modifies this
      ensures Valid() && pos == old(pos) + 4
      ensures v as int == data[old(pos)] as int + data[old(pos) + 1] as int * 0x100
        + data[old(pos) + 2] as int * 0x1_0000 + data[old(pos) + 3] as int * 0x100_0000
      ensures v == LE32(data[old(pos)], data[old(pos) + 1], data[old(pos) + 2], data[old(pos) + 3])
    {
      var bytes := ReadBytes(4);
      v := LE32(bytes[0], bytes[1], bytes[2], bytes[3]);
    }

    /** `fread(&x, sizeof(uint32_t), 1, file)`: four bytes in the host's own byte order. */
    method ReadNative32(host: Endianness) returns (v: u32)
      requires Valid() && Remaining() >= 4
      modifies this
      ensures Valid() && pos == old(pos) + 4
      ensures v == Native32(host, data[old(pos)], data[old(pos) + 1], data[old(pos) + 2], data[old(pos) + 3])
    {
      var bytes := ReadBytes(4);
      v := Native32(host, bytes[0], bytes[1], bytes[2], bytes[3]);
    }
  }
}
