/**
 * The little-endian field decoder: static readers that take a Java `byte[]`
 * and an offset and return the unsigned 8-, 16- or 32-bit value, or the
 * signed 8-bit value, stored there with the least significant byte first.
 * Each reader is written with the same Java operators as the Java methods (mask
 * with `& 0xff`, shift with `<<`, combine with `|`), over the models of those
 * operators in `JavaInts`; the contracts give the closed form of the result.
 */
module LittleEndian {
  import opened JavaInts

  /** A Java `byte[]`: its length is a non-negative `int`. */
  type ByteArray = s: seq<Byte> | |s| <= 0x7fff_ffff

  /** The `width` bytes from `offset` on lie inside `src`: no array access can fail. */
  predicate InBounds(src: ByteArray, offset: int, width: nat) {
    0 <= offset && offset + width <= |src|
  }

  /** The unsigned reading of a byte's bit pattern: a negative byte stands for itself plus 256. */
  function Unsigned(b: Byte): nat {
    if b < 0 then b + 0x100 else b
  }

  /** The unsigned reading of a byte is its remainder modulo 256. */
  lemma UnsignedIsLowByte(b: Byte)
    ensures Unsigned(b) == b % 0x100
  {
  }

  /** `b & 0xff` on a byte promoted to `int` is the byte's unsigned reading. */
  lemma MaskByte(b: Byte)
    ensures IntAnd(b, 0xff) == Unsigned(b)
  {
    IntAndLowByte(b);
    UnsignedIsLowByte(b);
  }

  /**
   * `v1 << 8 | v0` on two masked bytes is `v0 + 256 * v1`: the shifted byte
   * and the low byte occupy disjoint bits, so OR adds them.
   */
  lemma Assemble16(v0: Int, v1: Int)
    requires 0 <= v0 < 0x100 && 0 <= v1 < 0x100
    ensures IntOr(IntShl(v1, 8), v0) == v0 + 0x100 * v1
  {
    IntShlByte(v1);
    IntOrAboveByte(v1 * 0x100, v0);
  }

  /** The first OR of `getUInt32`: bytes 3 and 2 moved into bits 24-31 and 16-23. */
  lemma Assemble32High(v2: Long, v3: Long)
    requires 0 <= v2 < 0x100 && 0 <= v3 < 0x100
    ensures LongOr(LongShl(v3, 24), LongShl(v2, 16)) == 0x1_0000 * (v2 + 0x100 * v3)
  {
    LongShlByte(v2);
    LongShlByte(v3);
    Pow2Int();
    LongOrDisjoint(v3 * 0x100_0000, v3, 24, v2 * 0x1_0000);
  }

  /** The second OR of `getUInt32`: byte 1 moved into bits 8-15 below bytes 2 and 3. */
  lemma Assemble32Mid(h: nat, v1: Long)
    requires h < 0x1_0000 && 0 <= v1 < 0x100
    ensures LongOr(0x1_0000 * h, LongShl(v1, 8)) == 0x100 * (0x100 * h + v1)
  {
    LongShlByte(v1);
    Pow2Int();
    LongOrDisjoint(0x1_0000 * h, h, 16, v1 * 0x100);
  }

  /** The last OR of `getUInt32`: byte 0 into bits 0-7. */
  lemma Assemble32Low(g: nat, v0: Long)
    requires g < 0x100_0000 && 0 <= v0 < 0x100
    ensures LongOr(0x100 * g, v0) == 0x100 * g + v0
  {
    Pow2Int();
    LongOrDisjoint(0x100 * g, g, 8, v0);
  }

  /**
   * `v3 << 24 | v2 << 16 | v1 << 8 | v0` on four masked bytes held in `long`s
   * is their positional sum: each byte lands in its own eight bits.
   */
  lemma Assemble32(v0: Long, v1: Long, v2: Long, v3: Long)
    requires 0 <= v0 < 0x100 && 0 <= v1 < 0x100 && 0 <= v2 < 0x100 && 0 <= v3 < 0x100
    ensures LongOr(LongOr(LongOr(LongShl(v3, 24), LongShl(v2, 16)), LongShl(v1, 8)), v0)
         == v0 + 0x100 * v1 + 0x1_0000 * v2 + 0x100_0000 * v3
  {
    Assemble32High(v2, v3);
    Assemble32Mid(v2 + 0x100 * v3, v1);
    Assemble32Low(0x100 * (v2 + 0x100 * v3) + v1, v0);
  }

  /** `getUInt8`: the byte at `offset`, masked to eight bits. */
  function GetUInt8(src: ByteArray, offset: Int): (r: Int)
    requires InBounds(src, offset, 1)
    ensures 0 <= r < 0x100
    ensures r == Unsigned(src[offset])
  {
    MaskByte(src[offset]);
    IntAnd(src[offset], 0xff)
  }

  /** `getInt8`: the byte at `offset`, sign and all. */
  function GetInt8(src: ByteArray, offset: Int): (r: Int)
    requires InBounds(src, offset, 1)
    ensures -0x80 <= r < 0x80
    ensures r == if GetUInt8(src, offset) < 0x80 then GetUInt8(src, offset) else GetUInt8(src, offset) - 0x100
  {
    src[offset]
  }

  /** `getUInt16`: two bytes, the one at `offset` least significant. */
  function GetUInt16(src: ByteArray, offset: Int): (r: Int)
    requires InBounds(src, offset, 2)
    ensures 0 <= r < 0x1_0000
    ensures r == GetUInt8(src, offset) + 0x100 * GetUInt8(src, offset + 1)
  {
    var v0 := IntAnd(src[offset], 0xff);
    var v1 := IntAnd(src[offset + 1], 0xff);
    MaskByte(src[offset]);
    MaskByte(src[offset + 1]);
    Assemble16(v0, v1);
    IntOr(IntShl(v1, 8), v0)
  }

  /**
   * `getUInt32`: four bytes, the one at `offset` least significant, assembled
   * in a `long` so that a set top bit does not make the result negative.
   */
  function GetUInt32(src: ByteArray, offset: Int): (r: Long)
    requires InBounds(src, offset, 4)
    ensures 0 <= r <= 0xFFFF_FFFF
    ensures r == GetUInt8(src, offset) + 0x100 * GetUInt8(src, offset + 1)
               + 0x1_0000 * GetUInt8(src, offset + 2) + 0x100_0000 * GetUInt8(src, offset + 3)
    ensures r == GetUInt16(src, offset) + 0x1_0000 * GetUInt16(src, offset + 2)
  {
    var v0: Long := IntAnd(src[offset], 0xff);
    var v1: Long := IntAnd(src[offset + 1], 0xff);
    var v2: Long := IntAnd(src[offset + 2], 0xff);
    var v3: Long := IntAnd(src[offset + 3], 0xff);
    MaskByte(src[offset]);
    MaskByte(src[offset + 1]);
    MaskByte(src[offset + 2]);
    MaskByte(src[offset + 3]);
    Assemble32(v0, v1, v2, v3);
    LongOr(LongOr(LongOr(LongShl(v3, 24), LongShl(v2, 16)), LongShl(v1, 8)), v0)
  }
}
